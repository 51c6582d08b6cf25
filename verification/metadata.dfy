/** Collecting the repository metadata: every sub-repository directory holds
    `.js` implementations whose header comments declare `// match: <pattern>`
    and `// mapto: <name>`. An implementation is filed under "direct_match"
    when its name occurs literally in the unescaped pattern and under "regex"
    otherwise; a non-empty `mapto` is recorded beside it. Directory listing and
    file reading are inputs here: a sub-repository is its name and the
    (stem, lines) pairs of its `.js` files in listing order. */
module Metadata {
  import opened Common
  import opened Parsers

  /** Characters whose regex escape `\c` is undone before the literal test. */
  const RegexEscape: string := "."
  const MetadataKeys: seq<string> := ["match", "mapto"]
  const MetadataSep: string := ":"
  const SubrepoDefaultExclude: seq<string> := ["old_raw", "sample"]

  /** `s.replace('\\' + c, c)`: scanning left to right, every non-overlapping
      backslash-`c` pair becomes `c`; everything else is copied. */
  function UnescapeChar(s: string, c: char): (r: string)
    ensures |r| <= |s|
  {
    if |s| >= 2 && s[0] == '\\' && s[1] == c then [c] + UnescapeChar(s[2..], c)
    else if s == [] then []
    else [s[0]] + UnescapeChar(s[1..], c)
  }

  /** The loop of `regex_unescape`: one `replace` per character of `chars`, in order. */
  function UnescapeAll(s: string, chars: string): string
    decreases chars
  {
    if chars == [] then s else UnescapeAll(UnescapeChar(s, chars[0]), chars[1..])
  }

  /** `regex_unescape`. */
  method RegexUnescape(s: string) returns (r: string)
    ensures r == UnescapeAll(s, RegexEscape)
  {
    r := s;
    var i := 0;
    while i < |RegexEscape|
      invariant 0 <= i <= |RegexEscape|
      invariant UnescapeAll(r, RegexEscape[i..]) == UnescapeAll(s, RegexEscape)
    {
      assert RegexEscape[i..][1..] == RegexEscape[i + 1..];
      r := UnescapeChar(r, RegexEscape[i]);
      i := i + 1;
    }
  }

  predicate NoBackslash(s: string) {
    forall k :: 0 <= k < |s| ==> s[k] != '\\'
  }

  /** A string without a backslash has nothing to unescape. */
  lemma {:induction false} UnescapeCharNoBackslash(s: string, c: char)
    requires NoBackslash(s)
    ensures UnescapeChar(s, c) == s
  {
    if s != [] {
      UnescapeCharNoBackslash(s[1..], c);
    }
  }

  lemma {:induction false} RegexUnescapeNoBackslash(s: string, chars: string)
    requires NoBackslash(s)
    ensures UnescapeAll(s, chars) == s
  {
    if chars != [] {
      UnescapeCharNoBackslash(s, chars[0]);
      RegexUnescapeNoBackslash(s, chars[1..]);
    }
  }

  /** The escaping that `UnescapeChar` undoes: `c` becomes backslash-`c`. */
  function EscapeChar(s: string, c: char): (r: string)
    ensures |r| >= |s|
  {
    if s == [] then []
    else (if s[0] == c then ['\\', c] else [s[0]]) + EscapeChar(s[1..], c)
  }

  /** Unescaping undoes escaping for every string, even one that already holds
      backslashes, as long as the escaped character is not the backslash. */
  lemma {:induction false} UnescapeEscape(s: string, c: char)
    requires c != '\\'
    ensures UnescapeChar(EscapeChar(s, c), c) == s
  {
    if s != [] {
      var e := EscapeChar(s[1..], c);
      UnescapeEscape(s[1..], c);
      if s[0] == c {
        assert EscapeChar(s, c) == ['\\', c] + e;
        assert (['\\', c] + e)[2..] == e;
      } else {
        assert EscapeChar(s, c) == [s[0]] + e;
        assert e == [] || e[0] != c by {
          if s[1..] != [] {
            assert e[0] == (if s[1] == c then '\\' else s[1]);
          }
        }
        assert ([s[0]] + e)[1..] == e;
      }
    }
  }

  /** Python's `needle in hay` on strings. */
  predicate IsSubstring(needle: string, hay: string) {
    exists i: nat | i <= |hay| :: OccursAt(hay, needle, i)
  }

  /** A `.js` implementation: its file stem and its lines. */
  datatype Impl = Impl(stem: string, lines: seq<string>)

  /** A sub-repository directory: its name and its `.js` files in listing order. */
  datatype Subrepo = Subrepo(name: string, impls: seq<Impl>)

  /** The three dictionaries recorded per sub-repository, keyed by stem. */
  datatype SubrepoInfo = SubrepoInfo(directMatch: map<string, string>,
                                     regex: map<string, string>,
                                     mapto: map<string, string>)

  const EmptyInfo := SubrepoInfo(map[], map[], map[])

  /** Reading an implementation's `match` and `mapto` values from its lines. */
  type Reader = seq<string> -> Result<(string, string)>

  /** `read_metadata`: `read_info_once` fixed to the two metadata keys and ':'. */
  function ReadMetadata(lines: seq<string>): (r: Result<(string, string)>)
    ensures r == match OnceTwoKeys("match", "mapto", MetadataSep, CommentLines(lines))
                 case Err(e) => Err(e)
                 case Ok(p) => Ok((p.0["match"], p.0["mapto"]))
  {
    ReadInfoOnceTwoKeys("match", "mapto", MetadataSep, CommentLines(lines));
    match ReadInfoOnceSpec(MetadataKeys, MetadataSep, lines)
    case Err(e) => Err(e)
    case Ok(p) => Ok((p.0["match"], p.0["mapto"]))
  }

  /** `is_dmatch`: the stem occurs literally in the unescaped pattern. */
  predicate IsDirectMatch(stem: string, pattern: string) {
    IsSubstring(stem, UnescapeAll(pattern, RegexEscape))
  }

  /** Recording one implementation with its pattern and mapping. */
  function Record(info: SubrepoInfo, stem: string, pattern: string, mapto: string): (r: SubrepoInfo)
    ensures Unfiled(info, stem) ==> FiledAs(r, stem, pattern, mapto)
    ensures r.directMatch.Keys + r.regex.Keys == info.directMatch.Keys + info.regex.Keys + {stem}
    ensures r.mapto.Keys <= info.mapto.Keys + {stem}
  {
    var filed :=
      if IsDirectMatch(stem, pattern)
      then info.(directMatch := info.directMatch[stem := pattern])
      else info.(regex := info.regex[stem := pattern]);
    if mapto != "" then filed.(mapto := filed.mapto[stem := mapto]) else filed
  }

  /** Recording one stem leaves the entries of every other stem alone. */
  lemma RecordOthers(info: SubrepoInfo, stem: string, pattern: string, mapto: string, other: string)
    requires other != stem
    ensures SameEntry(Record(info, stem, pattern, mapto), info, other)
  {
  }

  /** `stem` has the same entries (presence and value) in both records. */
  predicate SameEntry(a: SubrepoInfo, b: SubrepoInfo, stem: string) {
    && (stem in a.directMatch <==> stem in b.directMatch)
    && (stem in a.regex <==> stem in b.regex)
    && (stem in a.mapto <==> stem in b.mapto)
    && (stem in a.directMatch && stem in b.directMatch ==> a.directMatch[stem] == b.directMatch[stem])
    && (stem in a.regex && stem in b.regex ==> a.regex[stem] == b.regex[stem])
    && (stem in a.mapto && stem in b.mapto ==> a.mapto[stem] == b.mapto[stem])
  }

  /** Filing one implementation into its sub-repository's record. */
  function FileImpl(read: Reader, info: SubrepoInfo, impl: Impl): (r: Result<SubrepoInfo>)
    ensures r.Ok? <==> read(impl.lines).Ok?
    ensures r.Ok? ==> r.value == Record(info, impl.stem, read(impl.lines).value.0, read(impl.lines).value.1)
  {
    match read(impl.lines)
    case Err(e) => Err(e)
    case Ok((pattern, mapto)) => Ok(Record(info, impl.stem, pattern, mapto))
  }

  /** The inner loop of `collect_repo_info` over a sub-repository's files. */
  function FileImpls(read: Reader, info: SubrepoInfo, impls: seq<Impl>): Result<SubrepoInfo>
    decreases impls
  {
    if impls == [] then Ok(info)
    else
      var filed := FileImpl(read, info, impls[0]);
      if filed.Err? then filed else FileImpls(read, filed.value, impls[1..])
  }

  /** The outer loop of `collect_repo_info` over the sub-repositories still to come. */
  function CollectFrom(read: Reader, subrepos: seq<Subrepo>, all: map<string, SubrepoInfo>)
    : Result<map<string, SubrepoInfo>>
    decreases subrepos
  {
    if subrepos == [] then Ok(all)
    else if subrepos[0].name in SubrepoDefaultExclude then CollectFrom(read, subrepos[1..], all)
    else match FileImpls(read, EmptyInfo, subrepos[0].impls)
      case Err(e) => Err(e)
      case Ok(info) => CollectFrom(read, subrepos[1..], all[subrepos[0].name := info])
  }

  /** The body of `collect_repo_info`'s inner loop: read the metadata of one
      implementation and file it. */
  method FileImplStep(info: SubrepoInfo, impl: Impl) returns (r: Result<SubrepoInfo>)
    ensures r == FileImpl(ReadMetadata, info, impl)
  {
    var meta := ReadInfoOnce(MetadataKeys, MetadataSep, impl.lines);
    if meta.Err? {
      return Err(meta.error);
    }
    ReadInfoOnceTwoKeys("match", "mapto", MetadataSep, CommentLines(impl.lines));
    var pattern := meta.value.0["match"];
    var mapto := meta.value.0["mapto"];
    var unescaped := RegexUnescape(pattern);
    var next := info;
    if IsSubstring(impl.stem, unescaped) {
      next := next.(directMatch := next.directMatch[impl.stem := pattern]);
    } else {
      next := next.(regex := next.regex[impl.stem := pattern]);
    }
    if mapto != "" {
      next := next.(mapto := next.mapto[impl.stem := mapto]);
    }
    r := Ok(next);
  }

  /** `collect_repo_info`: the nested dictionary, filled in place. */
  method CollectRepoInfo(subrepos: seq<Subrepo>) returns (r: Result<map<string, SubrepoInfo>>)
    ensures r == CollectFrom(ReadMetadata, subrepos, map[])
  {
    var all: map<string, SubrepoInfo> := map[];
    var i := 0;
    while i < |subrepos|
      invariant 0 <= i <= |subrepos|
      invariant CollectFrom(ReadMetadata, subrepos[i..], all) == CollectFrom(ReadMetadata, subrepos, map[])
    {
      var sub := subrepos[i];
      assert subrepos[i..][1..] == subrepos[i + 1..];
      if sub.name !in SubrepoDefaultExclude {
        var before := all;
        var info := EmptyInfo;
        all := before[sub.name := info];
        var j := 0;
        while j < |sub.impls|
          invariant 0 <= j <= |sub.impls|
          invariant all == before[sub.name := info]
          invariant FileImpls(ReadMetadata, EmptyInfo, sub.impls) == FileImpls(ReadMetadata, info, sub.impls[j..])
        {
          assert sub.impls[j..][1..] == sub.impls[j + 1..];
          var filed := FileImplStep(info, sub.impls[j]);
          if filed.Err? {
            assert FileImpls(ReadMetadata, EmptyInfo, sub.impls) == Err(filed.error);
            return Err(filed.error);
          }
          info := filed.value;
          all := before[sub.name := info];
          j := j + 1;
        }
        assert FileImpls(ReadMetadata, EmptyInfo, sub.impls) == Ok(info);
      }
      i := i + 1;
    }
    r := Ok(all);
  }

  /** The stems of a sequence of implementations. */
  function Stems(impls: seq<Impl>): (r: set<string>)
    ensures forall k :: 0 <= k < |impls| ==> impls[k].stem in r
  {
    set k | 0 <= k < |impls| :: impls[k].stem
  }

  /** No stem occurs twice (file names within one directory). */
  predicate DistinctStems(impls: seq<Impl>) {
    forall a, b :: 0 <= a < b < |impls| ==> impls[a].stem != impls[b].stem
  }

  predicate Unfiled(info: SubrepoInfo, stem: string) {
    stem !in info.directMatch && stem !in info.regex && stem !in info.mapto
  }

  /** How `collect_repo_info` records one implementation: under exactly one
      of "direct_match" (the stem occurs in the unescaped pattern) and
      "regex" (it does not), with the raw pattern as value, and under
      "mapto" exactly when the mapping is non-empty. */
  predicate FiledAs(info: SubrepoInfo, stem: string, pattern: string, mapto: string) {
    && (stem in info.directMatch <==> IsDirectMatch(stem, pattern))
    && (stem in info.regex <==> !IsDirectMatch(stem, pattern))
    && (stem in info.directMatch ==> info.directMatch[stem] == pattern)
    && (stem in info.regex ==> info.regex[stem] == pattern)
    && (stem in info.mapto <==> mapto != "")
    && (stem in info.mapto ==> info.mapto[stem] == mapto)
  }

  /** Filing leaves the entries of every other stem alone. */
  lemma {:induction false} FileImplsOthers(read: Reader, info: SubrepoInfo, impls: seq<Impl>, stem: string)
    requires FileImpls(read, info, impls).Ok?
    requires stem !in Stems(impls)
    ensures SameEntry(FileImpls(read, info, impls).value, info, stem)
    decreases impls
  {
    if impls != [] {
      var m := read(impls[0].lines).value;
      var next := Record(info, impls[0].stem, m.0, m.1);
      assert FileImpls(read, info, impls) == FileImpls(read, next, impls[1..]);
      RecordOthers(info, impls[0].stem, m.0, m.1, stem);
      assert Stems(impls[1..]) <= Stems(impls) by {
        forall x | x in Stems(impls[1..]) ensures x in Stems(impls) {
          var k :| 0 <= k < |impls[1..]| && impls[1..][k].stem == x;
          assert impls[k + 1].stem == x;
        }
      }
      FileImplsOthers(read, next, impls[1..], stem);
    }
  }

  /** Every implementation of a successfully read sub-repository is filed
      as its own metadata says, when stems are unique and start unfiled. */
  lemma {:induction false} FileImplsFiled(read: Reader, info: SubrepoInfo, impls: seq<Impl>, k: nat)
    requires FileImpls(read, info, impls).Ok?
    requires DistinctStems(impls)
    requires forall x :: x in Stems(impls) ==> Unfiled(info, x)
    requires k < |impls|
    ensures read(impls[k].lines).Ok?
    ensures FiledAs(FileImpls(read, info, impls).value, impls[k].stem,
                    read(impls[k].lines).value.0, read(impls[k].lines).value.1)
    decreases impls
  {
    var m := read(impls[0].lines).value;
    var next := Record(info, impls[0].stem, m.0, m.1);
    assert FileImpls(read, info, impls) == FileImpls(read, next, impls[1..]);
    if k == 0 {
      assert impls[0].stem !in Stems(impls[1..]) by {
        forall j | 0 <= j < |impls[1..]| ensures impls[1..][j].stem != impls[0].stem {
          assert impls[1..][j] == impls[j + 1];
        }
      }
      assert FiledAs(next, impls[0].stem, m.0, m.1);
      FileImplsOthers(read, next, impls[1..], impls[0].stem);
    } else {
      forall x | x in Stems(impls[1..]) ensures Unfiled(next, x) {
        var j :| 0 <= j < |impls[1..]| && impls[1..][j].stem == x;
        assert impls[j + 1].stem == x;
        assert x in Stems(impls) && x != impls[0].stem;
        RecordOthers(info, impls[0].stem, m.0, m.1, x);
      }
      assert impls[1..][k - 1] == impls[k];
      FileImplsFiled(read, next, impls[1..], k - 1);
    }
  }

  /** Reading a sub-repository fails exactly when some implementation's
      metadata cannot be read. */
  lemma {:induction false} FileImplsOk(read: Reader, info: SubrepoInfo, impls: seq<Impl>)
    ensures FileImpls(read, info, impls).Ok? <==> forall k :: 0 <= k < |impls| ==> read(impls[k].lines).Ok?
    decreases impls
  {
    if impls != [] {
      if read(impls[0].lines).Ok? {
        FileImplsOk(read, FileImpl(read, info, impls[0]).value, impls[1..]);
        assert forall k :: 1 <= k < |impls| ==> impls[k] == impls[1..][k - 1];
      }
    }
  }

  /** No key appears that is not the stem of one of the implementations. */
  lemma {:induction false} FileImplsKeys(read: Reader, info: SubrepoInfo, impls: seq<Impl>)
    requires FileImpls(read, info, impls).Ok?
    ensures var out := FileImpls(read, info, impls).value;
            && out.directMatch.Keys + out.regex.Keys == info.directMatch.Keys + info.regex.Keys + Stems(impls)
            && out.mapto.Keys <= info.mapto.Keys + Stems(impls)
    decreases impls
  {
    if impls != [] {
      var m := read(impls[0].lines).value;
      var next := Record(info, impls[0].stem, m.0, m.1);
      assert FileImpls(read, info, impls) == FileImpls(read, next, impls[1..]);
      FileImplsKeys(read, next, impls[1..]);
      assert Stems(impls) == {impls[0].stem} + Stems(impls[1..]) by {
        forall x | x in Stems(impls) ensures x in {impls[0].stem} + Stems(impls[1..]) {
          var j :| 0 <= j < |impls| && impls[j].stem == x;
          if j > 0 { assert impls[1..][j - 1].stem == x; }
        }
        forall x | x in Stems(impls[1..]) ensures x in Stems(impls) {
          var j :| 0 <= j < |impls[1..]| && impls[1..][j].stem == x;
          assert impls[j + 1].stem == x;
        }
      }
    }
  }

  /** The sub-repositories that get an entry: all but the excluded ones. */
  function Included(subrepos: seq<Subrepo>): (r: set<string>)
  {
    set k | 0 <= k < |subrepos| && subrepos[k].name !in SubrepoDefaultExclude :: subrepos[k].name
  }

  /** The result is keyed by exactly the non-excluded sub-repository names,
      and it is an error exactly when one of them cannot be read. */
  lemma {:induction false} CollectFromKeys(read: Reader, subrepos: seq<Subrepo>, all: map<string, SubrepoInfo>)
    ensures CollectFrom(read, subrepos, all).Ok? <==>
              forall k :: 0 <= k < |subrepos| && subrepos[k].name !in SubrepoDefaultExclude ==>
                FileImpls(read, EmptyInfo, subrepos[k].impls).Ok?
    ensures CollectFrom(read, subrepos, all).Ok? ==>
              CollectFrom(read, subrepos, all).value.Keys == all.Keys + Included(subrepos)
    decreases subrepos
  {
    if subrepos != [] {
      var rest := subrepos[1..];
      assert forall k :: 1 <= k < |subrepos| ==> subrepos[k] == rest[k - 1];
      assert Included(subrepos) ==
               (if subrepos[0].name in SubrepoDefaultExclude then {} else {subrepos[0].name}) + Included(rest) by {
        forall x | x in Included(subrepos)
          ensures x in (if subrepos[0].name in SubrepoDefaultExclude then {} else {subrepos[0].name}) + Included(rest)
        {
          var j :| 0 <= j < |subrepos| && subrepos[j].name !in SubrepoDefaultExclude && subrepos[j].name == x;
          if j > 0 { assert rest[j - 1].name == x; }
        }
        forall x | x in Included(rest) ensures x in Included(subrepos) {
          var j :| 0 <= j < |rest| && rest[j].name !in SubrepoDefaultExclude && rest[j].name == x;
          assert subrepos[j + 1].name == x;
        }
      }
      if subrepos[0].name in SubrepoDefaultExclude {
        CollectFromKeys(read, rest, all);
      } else if FileImpls(read, EmptyInfo, subrepos[0].impls).Ok? {
        CollectFromKeys(read, rest, all[subrepos[0].name := FileImpls(read, EmptyInfo, subrepos[0].impls).value]);
      }
    }
  }

  /** With distinct directory names, every included sub-repository's entry is
      what reading its own implementations gives. */
  lemma {:induction false} CollectFromEntry(read: Reader, subrepos: seq<Subrepo>, all: map<string, SubrepoInfo>, k: nat)
    requires CollectFrom(read, subrepos, all).Ok?
    requires forall a, b :: 0 <= a < b < |subrepos| ==> subrepos[a].name != subrepos[b].name
    requires k < |subrepos| && subrepos[k].name !in SubrepoDefaultExclude
    ensures FileImpls(read, EmptyInfo, subrepos[k].impls).Ok?
    ensures subrepos[k].name in CollectFrom(read, subrepos, all).value
    ensures CollectFrom(read, subrepos, all).value[subrepos[k].name] == FileImpls(read, EmptyInfo, subrepos[k].impls).value
    decreases subrepos
  {
    CollectFromKeys(read, subrepos, all);
    var rest := subrepos[1..];
    var next := if subrepos[0].name in SubrepoDefaultExclude then all
                else all[subrepos[0].name := FileImpls(read, EmptyInfo, subrepos[0].impls).value];
    assert CollectFrom(read, subrepos, all) == CollectFrom(read, rest, next);
    if k == 0 {
      CollectFromKeeps(read, rest, next, subrepos[0].name);
    } else {
      assert rest[k - 1] == subrepos[k];
      CollectFromEntry(read, rest, next, k - 1);
    }
  }

  /** Entries of names that do not come again are kept. */
  lemma {:induction false} CollectFromKeeps(read: Reader, subrepos: seq<Subrepo>, all: map<string, SubrepoInfo>, name: string)
    requires CollectFrom(read, subrepos, all).Ok?
    requires name in all
    requires forall k :: 0 <= k < |subrepos| ==> subrepos[k].name != name
    ensures name in CollectFrom(read, subrepos, all).value
    ensures CollectFrom(read, subrepos, all).value[name] == all[name]
    decreases subrepos
  {
    if subrepos != [] {
      var next := if subrepos[0].name in SubrepoDefaultExclude then all
                  else all[subrepos[0].name := FileImpls(read, EmptyInfo, subrepos[0].impls).value];
      CollectFromKeeps(read, subrepos[1..], next, name);
    }
  }
}
