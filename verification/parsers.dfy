/** Directive lines: comment lines of the form `// key<sep>value`.
    A file is a sequence of lines; a comment line is one that begins with `//`
    in column 0. `read_info` and `read_info_once` look up several keys, and every
    key is matched against ONE shared iterator over the comment lines, so a key
    only sees the comment lines that the keys before it did not consume. */
module Parsers {
  import opened Common

  const CommentSymbol: string := "//"

  /** A comment line as the shared iterator yields it: the zero-based index of
      the line in the file and the text after `//`, stripped. */
  type Info = (nat, string)

  /** Python's `str.isspace` for one character. */
  predicate IsSpace(c: char) {
    ('\t' <= c <= '\r') || ('\U{1C}' <= c <= ' ') || c == '\U{85}' || c == '\U{A0}'
    || c == '\U{1680}' || ('\U{2000}' <= c <= '\U{200A}') || c == '\U{2028}' || c == '\U{2029}'
    || c == '\U{202F}' || c == '\U{205F}' || c == '\U{3000}'
  }

  predicate StartsWith(s: string, prefix: string) {
    |prefix| <= |s| && s[..|prefix|] == prefix
  }

  /** `s` without its leading whitespace. */
  function TrimLeft(s: string): string {
    if s != [] && IsSpace(s[0]) then TrimLeft(s[1..]) else s
  }

  /** `s` without its trailing whitespace. */
  function TrimRight(s: string): string {
    if s != [] && IsSpace(s[|s| - 1]) then TrimRight(s[..|s| - 1]) else s
  }

  /** Python's `str.strip()`. */
  function Strip(s: string): string {
    TrimRight(TrimLeft(s))
  }

  /** Trimming on the left drops exactly the leading whitespace. */
  lemma {:induction false} TrimLeftMeaning(s: string)
    ensures var r := TrimLeft(s);
            && |r| <= |s| && r == s[|s| - |r|..]
            && (r == [] || !IsSpace(r[0]))
            && (forall k :: 0 <= k < |s| - |r| ==> IsSpace(s[k]))
  {
    if s != [] && IsSpace(s[0]) {
      TrimLeftMeaning(s[1..]);
      var r := TrimLeft(s);
      forall k | 0 <= k < |s| - |r|
        ensures IsSpace(s[k])
      {
        if k > 0 {
          assert s[k] == s[1..][k - 1];
        }
      }
    }
  }

  /** Trimming on the right drops exactly the trailing whitespace. */
  lemma {:induction false} TrimRightMeaning(s: string)
    ensures var r := TrimRight(s);
            && |r| <= |s| && r == s[..|r|]
            && (r == [] || !IsSpace(r[|r| - 1]))
            && (forall k :: |r| <= k < |s| ==> IsSpace(s[k]))
  {
    if s != [] && IsSpace(s[|s| - 1]) {
      TrimRightMeaning(s[..|s| - 1]);
      var r := TrimRight(s);
      forall k | |r| <= k < |s|
        ensures IsSpace(s[k])
      {
        if k < |s| - 1 {
          assert s[k] == s[..|s| - 1][k];
        }
      }
    }
  }

  /** `str.strip()` keeps a slice `s[i..j]` that neither starts nor ends with
      whitespace, dropping only whitespace on either side. */
  lemma StripMeaning(s: string)
    ensures exists i, j :: 0 <= i <= j <= |s| && Strip(s) == s[i..j]
              && (forall k :: 0 <= k < i ==> IsSpace(s[k]))
              && (forall k :: j <= k < |s| ==> IsSpace(s[k]))
    ensures Strip(s) == [] || (!IsSpace(Strip(s)[0]) && !IsSpace(Strip(s)[|Strip(s)| - 1]))
  {
    var t := TrimLeft(s);
    var r := TrimRight(t);
    TrimLeftMeaning(s);
    TrimRightMeaning(t);
    var i := |s| - |t|;
    assert r == s[i..i + |r|];
    forall k | i + |r| <= k < |s| ensures IsSpace(s[k]) {
      assert s[k] == t[k - i];
    }
  }

  /** `sep` occurs in `s` at position `k`. */
  predicate OccursAt(s: string, sep: string, k: nat) {
    k + |sep| <= |s| && s[k..k + |sep|] == sep
  }

  /** Index of the first occurrence of `sep` in `s` at or after `from`. */
  function FindFrom(s: string, sep: string, from: nat): (r: Option<nat>)
    requires sep != []
    ensures r.Some? ==> r.value + |sep| <= |s|
    decreases |s| - from
  {
    if from + |sep| > |s| then None
    else if s[from..from + |sep|] == sep then Some(from)
    else FindFrom(s, sep, from + 1)
  }

  /** The search finds the first occurrence at or after `from`, if any. */
  lemma {:induction false} FindFromMeaning(s: string, sep: string, from: nat)
    requires sep != []
    ensures FindFrom(s, sep, from).Some? ==>
              from <= FindFrom(s, sep, from).value && OccursAt(s, sep, FindFrom(s, sep, from).value)
    ensures forall k :: from <= k && (FindFrom(s, sep, from).None? || k < FindFrom(s, sep, from).value) ==>
              !OccursAt(s, sep, k)
    decreases |s| - from
  {
    if from + |sep| <= |s| && s[from..from + |sep|] != sep {
      FindFromMeaning(s, sep, from + 1);
    }
  }

  /** `s.split(sep, 1)[1]`: the text after the first separator, or None where
      Python raises IndexError because the separator does not occur. */
  function AfterSeparator(s: string, sep: string): Option<string>
    requires sep != []
  {
    match FindFrom(s, sep, 0)
    case None => None
    case Some(k) => Some(s[k + |sep|..])
  }

  /** `uncomment_line`: a line starting with `//` in column 0 yields its index
      and the stripped text after the marker; any other line yields nothing
      (the source returns False, which the caller's filter drops). */
  function UncommentLine(idx: nat, line: string): (r: Option<Info>)
    ensures r.Some? <==> StartsWith(line, CommentSymbol)
    ensures r.Some? ==> r.value.0 == idx && r.value.1 == Strip(line[|CommentSymbol|..])
  {
    if StartsWith(line, CommentSymbol) then Some((idx, Strip(line[|CommentSymbol|..]))) else None
  }

  /** `filter(None, map(uncomment_line, enumerate(lines)))`, from line `from` on. */
  function CommentLinesFrom(lines: seq<string>, from: nat): seq<Info>
    decreases |lines| - from
  {
    if from >= |lines| then []
    else
      var rest := CommentLinesFrom(lines, from + 1);
      match UncommentLine(from, lines[from])
      case None => rest
      case Some(p) => [p] + rest
  }

  /** `p` is what the comment-line iterator yields for line `p.0` of `lines`. */
  predicate Yields(lines: seq<string>, p: Info) {
    p.0 < |lines| && StartsWith(lines[p.0], CommentSymbol) && p.1 == Strip(lines[p.0][|CommentSymbol|..])
  }

  /** The iterator yields only comment lines, each with its stripped text, in
      increasing line order. */
  lemma {:induction false} CommentLinesSound(lines: seq<string>, from: nat)
    ensures forall k :: 0 <= k < |CommentLinesFrom(lines, from)| ==>
              from <= CommentLinesFrom(lines, from)[k].0 && Yields(lines, CommentLinesFrom(lines, from)[k])
    ensures forall k, l :: 0 <= k < l < |CommentLinesFrom(lines, from)| ==>
              CommentLinesFrom(lines, from)[k].0 < CommentLinesFrom(lines, from)[l].0
    decreases |lines| - from
  {
    if from < |lines| {
      CommentLinesSound(lines, from + 1);
      var u := UncommentLine(from, lines[from]);
      var rest := CommentLinesFrom(lines, from + 1);
      var r := CommentLinesFrom(lines, from);
      if u.Some? {
        assert r == [u.value] + rest;
        assert Yields(lines, u.value);
        forall k | 0 <= k < |r|
          ensures from <= r[k].0 && Yields(lines, r[k])
        {
          if k > 0 {
            assert r[k] == rest[k - 1];
          }
        }
        forall k, l | 0 <= k < l < |r|
          ensures r[k].0 < r[l].0
        {
          assert r[l] == rest[l - 1];
          if k > 0 {
            assert r[k] == rest[k - 1];
          }
        }
      } else {
        assert r == rest;
      }
    }
  }

  /** No comment line is skipped: every line that starts with `//` is yielded. */
  lemma {:induction false} CommentLinesComplete(lines: seq<string>, from: nat, j: nat)
    requires from <= j < |lines| && StartsWith(lines[j], CommentSymbol)
    ensures exists k :: 0 <= k < |CommentLinesFrom(lines, from)| && CommentLinesFrom(lines, from)[k].0 == j
    decreases j - from
  {
    var r := CommentLinesFrom(lines, from);
    var rest := CommentLinesFrom(lines, from + 1);
    if j == from {
      assert r[0].0 == j;
    } else {
      CommentLinesComplete(lines, from + 1, j);
      var k :| 0 <= k < |rest| && rest[k].0 == j;
      if UncommentLine(from, lines[from]).Some? {
        assert r[k + 1] == rest[k];
      } else {
        assert r[k] == rest[k];
      }
    }
  }

  /** The shared comment-line iterator of a file, as the sequence it will yield. */
  function CommentLines(lines: seq<string>): seq<Info> {
    CommentLinesFrom(lines, 0)
  }

  /** Position in `it` of the first comment line whose text starts with `key`. */
  function FirstMatch(it: seq<Info>, key: string): (r: Option<nat>)
    ensures r.Some? ==> r.value < |it| && StartsWith(it[r.value].1, key)
    ensures forall k :: 0 <= k < |it| && (r.None? || k < r.value) ==> !StartsWith(it[k].1, key)
  {
    if it == [] then None
    else if StartsWith(it[0].1, key) then Some(0)
    else match FirstMatch(it[1..], key)
      case None => None
      case Some(k) => Some(k + 1)
  }

  /** `filter(lambda ll: ll[1].startswith(key), it)`, drained. */
  function Selected(it: seq<Info>, key: string): (r: seq<Info>)
    ensures forall k :: 0 <= k < |r| ==> StartsWith(r[k].1, key) && r[k] in it
  {
    if it == [] then []
    else if StartsWith(it[0].1, key) then [it[0]] + Selected(it[1..], key)
    else Selected(it[1..], key)
  }

  /** The filter works line by line: it keeps the order of the lines it lets through. */
  lemma {:induction false} SelectedAppend(a: seq<Info>, b: seq<Info>, key: string)
    ensures Selected(a + b, key) == Selected(a, key) + Selected(b, key)
    decreases |a|
  {
    if a == [] {
      assert a + b == b;
    } else {
      assert (a + b)[0] == a[0] && (a + b)[1..] == a[1..] + b;
      SelectedAppend(a[1..], b, key);
    }
  }

  /** No line that starts with the key is dropped by the filter. */
  lemma {:induction false} SelectedComplete(it: seq<Info>, key: string)
    ensures forall k :: 0 <= k < |it| && StartsWith(it[k].1, key) ==> it[k] in Selected(it, key)
    decreases |it|
  {
    if it != [] {
      SelectedComplete(it[1..], key);
      forall k | 1 <= k < |it| && StartsWith(it[k].1, key)
        ensures it[k] in Selected(it, key)
      {
        assert it[k] == it[1..][k - 1];
      }
    }
  }

  /** One (value, line index) pair per selected line, or None where the first
      line lacking the separator makes Python raise IndexError. */
  function Values(sel: seq<Info>, sep: string): (r: Option<seq<(string, nat)>>)
    requires sep != []
    ensures r.Some? <==> forall k :: 0 <= k < |sel| ==> AfterSeparator(sel[k].1, sep).Some?
    ensures r.Some? ==> |r.value| == |sel| && forall k :: 0 <= k < |sel| ==>
              r.value[k] == (Strip(AfterSeparator(sel[k].1, sep).value), sel[k].0)
  {
    if sel == [] then Some([])
    else
      var tail := Values(sel[1..], sep);
      assert forall k :: 1 <= k < |sel| ==> sel[k] == sel[1..][k - 1];
      match AfterSeparator(sel[0].1, sep)
      case None => None
      case Some(v) => if tail.None? then None else Some([(Strip(v), sel[0].0)] + tail.value)
  }

  /** `match_lines`: the key's (value, line index) pairs and what is left of the
      shared iterator afterwards. With `once` only the first matching line is
      taken and the iterator stays just past it; otherwise the filter is
      drained and the iterator is left empty. A key with no matching line gives
      None, and the search has consumed the whole iterator. */
  function MatchLines(it: seq<Info>, sep: string, once: bool, key: string)
    : (r: Result<(Option<seq<(string, nat)>>, seq<Info>)>)
    requires sep != []
    ensures r.Err? ==> r.error == IndexError
    ensures r.Ok? && r.value.0.None? <==> FirstMatch(it, key).None?
    ensures r.Ok? && r.value.0.None? ==> r.value.1 == []
    ensures r.Ok? && !once ==> r.value.1 == []
  {
    match FirstMatch(it, key)
    case None => Ok((None, []))
    case Some(k) =>
      var sel := if once then [it[k]] else [it[k]] + Selected(it[k + 1..], key);
      var rest := if once then it[k + 1..] else [];
      match Values(sel, sep)
      case None => Err(IndexError)
      case Some(vs) => Ok((Some(vs), rest))
  }

  function Firsts<A, B>(ps: seq<(A, B)>): (r: seq<A>)
    ensures |r| == |ps| && forall k :: 0 <= k < |ps| ==> r[k] == ps[k].0
  {
    if ps == [] then [] else [ps[0].0] + Firsts(ps[1..])
  }

  function Seconds<A, B>(ps: seq<(A, B)>): (r: seq<B>)
    ensures |r| == |ps| && forall k :: 0 <= k < |ps| ==> r[k] == ps[k].1
  {
    if ps == [] then [] else [ps[0].1] + Seconds(ps[1..])
  }

  type Table<V> = map<string, V>

  /** `([], []) if values is None else zip(*values)`. */
  function Unzip(values: Option<seq<(string, nat)>>): (r: (seq<string>, seq<nat>))
    ensures |r.0| == |r.1|
    ensures values.None? ==> r == ([], [])
    ensures values.Some? ==> |r.0| == |values.value|
    ensures values.Some? ==>
      forall k :: 0 <= k < |values.value| ==> r.0[k] == values.value[k].0 && r.1[k] == values.value[k].1
  {
    if values.None? then ([], []) else (Firsts(values.value), Seconds(values.value))
  }

  /** What `read_info`'s loop does with the keys still to come, given the
      shared iterator `it` and the dictionaries filled so far. */
  function ReadInfoFrom(keys: seq<string>, sep: string, it: seq<Info>,
                        result: Table<seq<string>>, lineids: Table<seq<nat>>)
    : Result<(Table<seq<string>>, Table<seq<nat>>)>
    requires sep != []
  {
    if keys == [] then Ok((result, lineids))
    else match MatchLines(it, sep, false, keys[0])
      case Err(e) => Err(e)
      case Ok((values, rest)) =>
        var entry := Unzip(values);
        ReadInfoFrom(keys[1..], sep, rest, result[keys[0] := entry.0], lineids[keys[0] := entry.1])
  }

  /** `read_info(keys, sep, lines)` as a value. */
  function ReadInfoSpec(keys: seq<string>, sep: string, lines: seq<string>)
    : Result<(Table<seq<string>>, Table<seq<nat>>)>
    requires sep != []
  {
    ReadInfoFrom(keys, sep, CommentLines(lines), map[], map[])
  }

  /** `read_info`: every key's values and line indices, all keys drawing on one
      comment-line iterator. */
  method ReadInfo(keys: seq<string>, sep: string, lines: seq<string>)
    returns (r: Result<(Table<seq<string>>, Table<seq<nat>>)>)
    requires sep != []
    ensures r == ReadInfoSpec(keys, sep, lines)
  {
    var infoLines := CommentLines(lines);
    var result: Table<seq<string>> := map[];
    var lineids: Table<seq<nat>> := map[];
    var i := 0;
    while i < |keys|
      invariant 0 <= i <= |keys|
      invariant ReadInfoFrom(keys[i..], sep, infoLines, result, lineids) == ReadInfoSpec(keys, sep, lines)
    {
      assert keys[i..][1..] == keys[i + 1..];
      var m := MatchLines(infoLines, sep, false, keys[i]);
      if m.Err? {
        return Err(m.error);
      }
      var (values, rest) := m.value;
      var vs: seq<string>, lids: seq<nat> := [], [];
      if values.Some? {
        vs, lids := Firsts(values.value), Seconds(values.value);
      }
      result := result[keys[i] := vs];
      lineids := lineids[keys[i] := lids];
      infoLines := rest;
      i := i + 1;
    }
    r := Ok((result, lineids));
  }

  /** What `read_info_once`'s loop does with the keys still to come. */
  function ReadInfoOnceFrom(keys: seq<string>, sep: string, it: seq<Info>,
                            result: Table<string>, lineids: Table<nat>)
    : Result<(Table<string>, Table<nat>)>
    requires sep != []
  {
    if keys == [] then Ok((result, lineids))
    else match MatchLines(it, sep, true, keys[0])
      case Err(e) => Err(e)
      case Ok((values, rest)) =>
        if values.None? then Err(TypeError)
        else
          ReadInfoOnceFrom(keys[1..], sep, rest,
            result[keys[0] := values.value[0].0], lineids[keys[0] := values.value[0].1])
  }

  /** `read_info_once(keys, sep, lines)` as a value. */
  function ReadInfoOnceSpec(keys: seq<string>, sep: string, lines: seq<string>)
    : Result<(Table<string>, Table<nat>)>
    requires sep != []
  {
    ReadInfoOnceFrom(keys, sep, CommentLines(lines), map[], map[])
  }

  /** `read_info_once`: the first value and line index of every key; a key
      with no line left to match raises TypeError (zip over None). */
  method ReadInfoOnce(keys: seq<string>, sep: string, lines: seq<string>)
    returns (r: Result<(Table<string>, Table<nat>)>)
    requires sep != []
    ensures r == ReadInfoOnceSpec(keys, sep, lines)
  {
    var infoLines := CommentLines(lines);
    var result: Table<string> := map[];
    var lineids: Table<nat> := map[];
    var i := 0;
    while i < |keys|
      invariant 0 <= i <= |keys|
      invariant ReadInfoOnceFrom(keys[i..], sep, infoLines, result, lineids) == ReadInfoOnceSpec(keys, sep, lines)
    {
      assert keys[i..][1..] == keys[i + 1..];
      var m := MatchLines(infoLines, sep, true, keys[i]);
      if m.Err? {
        return Err(m.error);
      }
      var (values, rest) := m.value;
      if values.None? {
        return Err(TypeError);
      }
      result := result[keys[i] := values.value[0].0];
      lineids := lineids[keys[i] := values.value[0].1];
      infoLines := rest;
      i := i + 1;
    }
    r := Ok((result, lineids));
  }

  /** The filter drained after its first hit is the whole filter. */
  lemma {:induction false} SelectedAfterFirst(it: seq<Info>, key: string)
    ensures FirstMatch(it, key).None? ==> Selected(it, key) == []
    ensures FirstMatch(it, key).Some? ==>
              var k := FirstMatch(it, key).value;
              Selected(it, key) == [it[k]] + Selected(it[k + 1..], key)
  {
    if it != [] {
      SelectedAfterFirst(it[1..], key);
      if !StartsWith(it[0].1, key) && FirstMatch(it[1..], key).Some? {
        var k := FirstMatch(it[1..], key).value;
        assert it[1..][k + 1..] == it[k + 2..];
      }
    }
  }

  /** The dictionaries `read_info` fills: one entry per key, values and
      indices of equal length. */
  lemma {:induction false} ReadInfoFromAligned(keys: seq<string>, sep: string, it: seq<Info>,
                                               result: Table<seq<string>>, lineids: Table<seq<nat>>)
    requires sep != []
    requires result.Keys == lineids.Keys
    requires forall k :: k in result ==> |result[k]| == |lineids[k]|
    requires ReadInfoFrom(keys, sep, it, result, lineids).Ok?
    ensures var p := ReadInfoFrom(keys, sep, it, result, lineids).value;
            && p.0.Keys == p.1.Keys == result.Keys + (set k | k in keys)
            && (forall k :: k in p.0 ==> |p.0[k]| == |p.1[k]|)
    decreases |keys|
  {
    if keys != [] {
      var m := MatchLines(it, sep, false, keys[0]);
      var entry := Unzip(m.value.0);
      assert ReadInfoFrom(keys, sep, it, result, lineids)
          == ReadInfoFrom(keys[1..], sep, m.value.1, result[keys[0] := entry.0], lineids[keys[0] := entry.1]);
      ReadInfoFromAligned(keys[1..], sep, m.value.1, result[keys[0] := entry.0], lineids[keys[0] := entry.1]);
      KeySet(keys);
    }
  }

  lemma KeySet(keys: seq<string>)
    requires keys != []
    ensures (set k | k in keys) == {keys[0]} + set k | k in keys[1..]
  {
    forall k | k in keys ensures k == keys[0] || k in keys[1..] {
      var i :| 0 <= i < |keys| && keys[i] == k;
      if i > 0 { assert keys[1..][i - 1] == k; }
    }
  }

  /** The first key drains the shared iterator, so every later key is stored
      with empty sequences. */
  lemma {:induction false} ReadInfoFromLaterEmpty(keys: seq<string>, sep: string, it: seq<Info>,
                                                  result: Table<seq<string>>, lineids: Table<seq<nat>>)
    requires sep != []
    requires ReadInfoFrom(keys, sep, it, result, lineids).Ok?
    ensures var p := ReadInfoFrom(keys, sep, it, result, lineids).value;
            forall j :: 1 <= j < |keys| ==>
              keys[j] in p.0 && keys[j] in p.1 && p.0[keys[j]] == [] && p.1[keys[j]] == []
  {
    if |keys| > 1 {
      var m := MatchLines(it, sep, false, keys[0]);
      var entry := Unzip(m.value.0);
      assert m.value.1 == [];
      ReadInfoFromEmpty(keys[1..], sep, result[keys[0] := entry.0], lineids[keys[0] := entry.1]);
      var p := ReadInfoFrom(keys, sep, it, result, lineids).value;
      forall j | 1 <= j < |keys|
        ensures keys[j] in p.0 && keys[j] in p.1 && p.0[keys[j]] == [] && p.1[keys[j]] == []
      {
        assert keys[j] in keys[1..];
      }
    }
  }

  /** On an exhausted iterator every key is stored with empty sequences. */
  lemma {:induction false} ReadInfoFromEmpty(keys: seq<string>, sep: string,
                                             result: Table<seq<string>>, lineids: Table<seq<nat>>)
    requires sep != []
    ensures ReadInfoFrom(keys, sep, [], result, lineids).Ok?
    ensures var (res, ids) := ReadInfoFrom(keys, sep, [], result, lineids).value;
            forall k :: k in keys ==> k in res && k in ids && res[k] == [] && ids[k] == []
    decreases |keys|
  {
    if keys != [] {
      ReadInfoFromEmpty(keys[1..], sep, result[keys[0] := []], lineids[keys[0] := []]);
      var (res, ids) := ReadInfoFrom(keys, sep, [], result, lineids).value;
      forall k | k in keys ensures k in res && k in ids && res[k] == [] && ids[k] == [] {
        if k !in keys[1..] {
          ReadInfoFromKeeps(keys[1..], sep, [], result[keys[0] := []], lineids[keys[0] := []], k);
        }
      }
    }
  }

  /** A key not looked up again keeps what it was given. */
  lemma {:induction false} ReadInfoFromKeeps(keys: seq<string>, sep: string, it: seq<Info>,
                                             result: Table<seq<string>>, lineids: Table<seq<nat>>, k: string)
    requires sep != []
    requires k !in keys && k in result && k in lineids
    requires ReadInfoFrom(keys, sep, it, result, lineids).Ok?
    ensures var (res, ids) := ReadInfoFrom(keys, sep, it, result, lineids).value;
            k in res && k in ids && res[k] == result[k] && ids[k] == lineids[k]
    decreases |keys|
  {
    if keys != [] {
      var m := MatchLines(it, sep, false, keys[0]);
      var entry := Unzip(m.value.0);
      ReadInfoFromKeeps(keys[1..], sep, m.value.1, result[keys[0] := entry.0], lineids[keys[0] := entry.1], k);
    }
  }

  /** `read_info` gives every key equally long value and index sequences, and
      because the first key drains the shared iterator, every later key gets
      empty ones. */
  lemma ReadInfoShape(keys: seq<string>, sep: string, lines: seq<string>)
    requires sep != []
    requires ReadInfoSpec(keys, sep, lines).Ok?
    ensures var p := ReadInfoSpec(keys, sep, lines).value;
            && p.0.Keys == p.1.Keys == (set k | k in keys)
            && (forall k :: k in p.0 ==> |p.0[k]| == |p.1[k]|)
            && (forall j :: 1 <= j < |keys| ==> keys[j] in p.0 && p.0[keys[j]] == [] && p.1[keys[j]] == [])
  {
    ReadInfoFromAligned(keys, sep, CommentLines(lines), map[], map[]);
    ReadInfoFromLaterEmpty(keys, sep, CommentLines(lines), map[], map[]);
  }

  /** `read_info` on a single key: the values are the stripped texts after the
      first separator of exactly the comment lines that start with the key, in
      file order, paired with their line indices; any such line without the
      separator makes the call raise IndexError. A key without such a line
      gets empty sequences. */
  lemma ReadInfoSingleKey(key: string, sep: string, it: seq<Info>)
    requires sep != []
    ensures ReadInfoFrom([key], sep, it, map[], map[]) ==
              match Values(Selected(it, key), sep)
              case None => Err(IndexError)
              case Some(vs) => Ok((map[key := Firsts(vs)], map[key := Seconds(vs)]))
  {
    ReadInfoFromOne(key, sep, it);
    MatchLinesDrained(key, sep, it);
    if FirstMatch(it, key).None? {
      assert Firsts<string, nat>([]) == [] && Seconds<string, nat>([]) == [];
    }
  }

  /** Without `once`, `match_lines` converts every selected line, or raises
      IndexError; a key with no line gives None. */
  lemma MatchLinesDrained(key: string, sep: string, it: seq<Info>)
    requires sep != []
    ensures FirstMatch(it, key).None? ==> MatchLines(it, sep, false, key) == Ok((None, [])) && Values(Selected(it, key), sep) == Some([])
    ensures FirstMatch(it, key).Some? ==>
              MatchLines(it, sep, false, key) ==
                match Values(Selected(it, key), sep)
                case None => Err(IndexError)
                case Some(vs) => Ok((Some(vs), []))
  {
    SelectedAfterFirst(it, key);
    if FirstMatch(it, key).Some? {
      var k := FirstMatch(it, key).value;
      assert [it[k]] + Selected(it[k + 1..], key) == Selected(it, key);
    }
  }

  /** `read_info` on a single key stores what `match_lines` finds for it. */
  lemma ReadInfoFromOne(key: string, sep: string, it: seq<Info>)
    requires sep != []
    ensures ReadInfoFrom([key], sep, it, map[], map[]) ==
              match MatchLines(it, sep, false, key)
              case Err(e) => Err(e)
              case Ok((values, _)) => Ok((map[key := Unzip(values).0], map[key := Unzip(values).1]))
  {
    assert [key][1..] == [];
  }

  /** In once-mode `match_lines` takes the first matching line only and
      leaves the iterator just past it. */
  lemma MatchLinesOnce(it: seq<Info>, sep: string, key: string)
    requires sep != []
    requires FirstMatch(it, key).Some?
    ensures var k := FirstMatch(it, key).value;
            var r := MatchLines(it, sep, true, key);
            && (AfterSeparator(it[k].1, sep).None? ==> r == Err(IndexError))
            && (AfterSeparator(it[k].1, sep).Some? ==>
                  r == Ok((Some([(Strip(AfterSeparator(it[k].1, sep).value), it[k].0)]), it[k + 1..])))
  {
    var k := FirstMatch(it, key).value;
    var v := Values([it[k]], sep);
    if AfterSeparator(it[k].1, sep).Some? {
      assert v.Some?;
      assert v.value == [(Strip(AfterSeparator(it[k].1, sep).value), it[k].0)];
    } else {
      assert v.None?;
    }
  }

  /** One step of `read_info_once`: the key takes the first comment line
      left that starts with it and the rest of the iterator goes to the next
      key; no such line raises TypeError, and a line without the separator
      raises IndexError. */
  lemma ReadInfoOnceStep(key: string, keys: seq<string>, sep: string, it: seq<Info>,
                         result: Table<string>, lineids: Table<nat>)
    requires sep != []
    ensures FirstMatch(it, key).None? ==> ReadInfoOnceFrom([key] + keys, sep, it, result, lineids) == Err(TypeError)
    ensures FirstMatch(it, key).Some? && AfterSeparator(it[FirstMatch(it, key).value].1, sep).None? ==>
              ReadInfoOnceFrom([key] + keys, sep, it, result, lineids) == Err(IndexError)
    ensures FirstMatch(it, key).Some? && AfterSeparator(it[FirstMatch(it, key).value].1, sep).Some? ==>
              var a := FirstMatch(it, key).value;
              ReadInfoOnceFrom([key] + keys, sep, it, result, lineids) ==
                ReadInfoOnceFrom(keys, sep, it[a + 1..], result[key := Strip(AfterSeparator(it[a].1, sep).value)],
                                 lineids[key := it[a].0])
  {
    assert ([key] + keys)[0] == key && ([key] + keys)[1..] == keys;
    if FirstMatch(it, key).Some? {
      MatchLinesOnce(it, sep, key);
    }
  }

  /** `read_info_once` on two keys, spelled out: the first key takes the
      first comment line that starts with it, and the second key is searched
      for only among the comment lines after that one. A key without such a
      line raises TypeError; a taken line without the separator raises
      IndexError. */
  function OnceTwoKeys(k1: string, k2: string, sep: string, it: seq<Info>): (r: Result<(Table<string>, Table<nat>)>)
    requires sep != []
    ensures r.Ok? ==> r.value.0.Keys == {k1, k2} == r.value.1.Keys
    ensures r.Err? ==> r.error == TypeError || r.error == IndexError
  {
    match FirstMatch(it, k1)
    case None => Err(TypeError)
    case Some(a) =>
      match AfterSeparator(it[a].1, sep)
      case None => Err(IndexError)
      case Some(v1) =>
        var rest := it[a + 1..];
        match FirstMatch(rest, k2)
        case None => Err(TypeError)
        case Some(c) =>
          match AfterSeparator(rest[c].1, sep)
          case None => Err(IndexError)
          case Some(v2) => Ok((map[k1 := Strip(v1)][k2 := Strip(v2)], map[k1 := it[a].0][k2 := rest[c].0]))
  }

  /** The loop of `read_info_once` on two keys is the closed form above. */
  lemma ReadInfoOnceTwoKeys(k1: string, k2: string, sep: string, it: seq<Info>)
    requires sep != []
    ensures ReadInfoOnceFrom([k1, k2], sep, it, map[], map[]) == OnceTwoKeys(k1, k2, sep, it)
  {
    assert [k1, k2] == [k1] + [k2];
    assert [k2] == [k2] + [];
    ReadInfoOnceStep(k1, [k2], sep, it, map[], map[]);
    match FirstMatch(it, k1)
    case None =>
    case Some(a) =>
      match AfterSeparator(it[a].1, sep)
      case None =>
      case Some(v1) =>
        ReadInfoOnceStep(k2, [], sep, it[a + 1..], map[k1 := Strip(v1)], map[k1 := it[a].0]);
  }

  /** `read_info_once` raises TypeError for the first key that finds no
      comment line starting with it among those left by earlier keys. */
  lemma ReadInfoOnceMissingKey(keys: seq<string>, sep: string, lines: seq<string>)
    requires sep != [] && keys != []
    requires FirstMatch(CommentLines(lines), keys[0]).None?
    ensures ReadInfoOnceSpec(keys, sep, lines) == Err(TypeError)
  {
  }
}
