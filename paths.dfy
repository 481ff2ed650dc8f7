/**
 * `remove_prefix`: the handler drops the API Gateway stage, the first
 * `/`-delimited segment, from the event path before forwarding it.
 */
module Paths {
  import opened Wrappers
  import opened Text

  /**
   * `s[len(s.split('/')[1]) + 1:]`. The index `[1]` raises IndexError when
   * `s` has no `/`, which is the `None` result.
   */
  function RemovePrefix(s: string): (r: Option<string>)
    ensures r.None? <==> '/' !in s
    ensures r.Some? ==> |r.value| < |s| && r.value == s[|s| - |r.value|..]
  {
    var fields := Split(s, "/");
    SplitSingleIffAbsent(s, "/");
    OccursChar(s, '/');
    if |fields| < 2 then None
    else
      SplitSecond(s, "/");
      Some(s[|fields[1]| + 1..])
  }

  /**
   * On a path that starts with `/`, what is dropped is exactly `/` and the
   * first segment: the rest is empty or starts a new segment.
   */
  lemma {:induction false} RemovePrefixRooted(s: string)
    requires s != [] && s[0] == '/'
    ensures RemovePrefix(s).Some?
    ensures var r := RemovePrefix(s).value;
      var segment := s[1..|s| - |r|];
      s == "/" + segment + r && '/' !in segment && (r == [] || r[0] == '/')
  {
    SplitHead(s, "/");
    var rest := Split(s[1..], "/");
    assert Split(s, "/")[1..] == rest;
    SplitHead(s[1..], "/");
    SplitHeadFree(s[1..], "/");
    var segment := rest[0];
    OccursChar(segment, '/');
    var r := RemovePrefix(s).value;
    assert r == s[|segment| + 1..];
    assert s[1..|s| - |r|] == segment;
    if r != [] {
      assert |rest| > 1;
      assert s[1..][|segment|..] == r;
    }
  }

  /** `/` + a segment + the rest loses exactly `/` and the segment. */
  lemma {:induction false} RemovePrefixOfStage(segment: string, rest: string)
    requires '/' !in segment
    requires rest == [] || rest[0] == '/'
    ensures RemovePrefix("/" + segment + rest) == Some(rest)
  {
    var s := "/" + segment + rest;
    RemovePrefixRooted(s);
    var r := RemovePrefix(s).value;
    var t := s[1..];
    var found := t[..|t| - |r|];
    assert found == s[1..|s| - |r|] && r == t[|t| - |r|..];
    SliceJoin(t, |t| - |r|);
    AppendAssoc("/", segment, rest);
    assert t == segment + rest;
    FirstDifference(found, r, segment, rest);
    FirstDifference(segment, rest, found, r);
    if |found| != |segment| {
      assert false;
    }
  }

  lemma {:induction false} FirstDifference(a: string, x: string, b: string, y: string)
    ensures a + x == b + y && |a| < |b| ==> x != [] && x[0] == b[|a|]
  {
    if a + x == b + y && |a| < |b| {
      assert (a + x)[|a|] == (b + y)[|a|];
    }
  }

  /** The stage path of an example request. */
  lemma {:induction false} RemovePrefixExample()
    ensures RemovePrefix("/stage/v1/sys/status") == Some("/v1/sys/status")
  {
    assert "/stage/v1/sys/status" == "/" + "stage" + "/v1/sys/status";
    assert '/' !in "stage";
    RemovePrefixOfStage("stage", "/v1/sys/status");
  }

  /** A path with the stage alone leaves the empty path; it does not fail. */
  lemma {:induction false} RemovePrefixStageOnly(segment: string)
    requires '/' !in segment
    ensures RemovePrefix("/" + segment) == Some([])
  {
    assert "/" + segment + [] == "/" + segment;
    RemovePrefixOfStage(segment, []);
  }
}
