/**
 * The Python string and text-file primitives the handler is built on:
 * `str.split`, `str.count`, `str.replace`, and iteration over the lines of a
 * text file. Each is defined as a left-to-right scan, and the lemmas relate
 * them to each other.
 */
module Text {

  /** `pat` occurs somewhere in `s` (Python's `pat in s`). */
  predicate Occurs(s: string, pat: string) {
    exists i :: 0 <= i <= |s| && pat <= s[i..]
  }

  lemma {:induction false} OccursChar(s: string, c: char)
    ensures Occurs(s, [c]) <==> c in s
  {
    if c in s {
      var i :| 0 <= i < |s| && s[i] == c;
      assert [c] <= s[i..];
    }
    if Occurs(s, [c]) {
      var i :| 0 <= i <= |s| && [c] <= s[i..];
      assert s[i] == c;
    }
  }

  /**
   * `s.split(sep)`: the fields between the non-overlapping occurrences of
   * `sep` found scanning from the left. Python refuses an empty separator.
   */
  function Split(s: string, sep: string): (fields: seq<string>)
    requires sep != []
    ensures 1 <= |fields| <= |s| + 1
    decreases |s|
  {
    if s == [] then [[]]
    else if sep <= s then [[]] + Split(s[|sep|..], sep)
    else
      var rest := Split(s[1..], sep);
      [[s[0]] + rest[0]] + rest[1..]
  }

  /** `sep.join(fields)`. */
  function Join(fields: seq<string>, sep: string): (s: string)
    requires |fields| >= 1
    decreases |fields|
  {
    if |fields| == 1 then fields[0] else fields[0] + sep + Join(fields[1..], sep)
  }

  /** `s.count(pat)`: non-overlapping occurrences, and `len(s) + 1` for the empty pattern. */
  function Count(s: string, pat: string): (n: nat)
    ensures pat != [] ==> n * |pat| <= |s|
    decreases |s|
  {
    if pat == [] then |s| + 1
    else if s == [] then 0
    else if pat <= s then
      var rest := Count(s[|pat|..], pat);
      MulSucc(rest, |pat|);
      rest + 1
    else Count(s[1..], pat)
  }

  /**
   * `s.replace(pat, sub)`: every non-overlapping occurrence of `pat`, found
   * from the left, becomes `sub`; an empty `pat` puts `sub` before every
   * character and at the end.
   */
  function ReplaceAll(s: string, pat: string, sub: string): (r: string)
    ensures pat != [] && sub == [] ==> |r| <= |s|
    ensures pat != [] && |sub| == |pat| ==> |r| == |s|
    decreases |s|
  {
    if pat == [] then
      if s == [] then sub else sub + [s[0]] + ReplaceAll(s[1..], pat, sub)
    else if s == [] then []
    else if pat <= s then sub + ReplaceAll(s[|pat|..], pat, sub)
    else [s[0]] + ReplaceAll(s[1..], pat, sub)
  }

  /**
   * The first field of a split is a prefix of `s`. It is all of `s` when it
   * is the only field; otherwise `sep` comes right after it.
   */
  lemma {:induction false} SplitHead(s: string, sep: string)
    requires sep != []
    ensures var fields := Split(s, sep);
      fields[0] <= s &&
      (|fields| == 1 ==> fields[0] == s) &&
      (|fields| > 1 ==> |fields[0]| + |sep| <= |s| && sep <= s[|fields[0]|..])
  {
    SplitFirst(s, sep);
    SplitRest(s, sep);
  }

  lemma {:induction false} SplitFirst(s: string, sep: string)
    requires sep != []
    ensures Split(s, sep)[0] <= s
    ensures |Split(s, sep)| == 1 ==> Split(s, sep)[0] == s
    decreases |s|
  {
    if s != [] && !(sep <= s) {
      var rest := Split(s[1..], sep);
      SplitFirst(s[1..], sep);
      assert Split(s, sep) == [[s[0]] + rest[0]] + rest[1..];
      assert s == [s[0]] + s[1..];
    }
  }

  lemma {:induction false} SplitRest(s: string, sep: string)
    requires sep != []
    ensures var fields := Split(s, sep);
      |fields| > 1 ==> |fields[0]| + |sep| <= |s| && sep <= s[|fields[0]|..]
    decreases |s|
  {
    if s != [] && !(sep <= s) {
      var rest := Split(s[1..], sep);
      SplitRest(s[1..], sep);
      var f := [s[0]] + rest[0];
      assert Split(s, sep) == [f] + rest[1..];
      if |rest| > 1 {
        assert s[|f|..] == s[1..][|rest[0]|..];
      }
    }
  }

  /** Two fields or more: the first, the separator and the second lie at the front of `s`, in that order. */
  lemma {:induction false} SplitSecond(s: string, sep: string)
    requires sep != [] && |Split(s, sep)| > 1
    ensures var fields := Split(s, sep);
      fields[0] + sep + fields[1] <= s
  {
    var fields := Split(s, sep);
    SplitJoin(s, sep);
    assert Join(fields, sep) == fields[0] + sep + Join(fields[1..], sep);
    JoinFirst(fields[1..], sep);
  }

  /** The first field is where a join begins. */
  lemma {:induction false} JoinFirst(fields: seq<string>, sep: string)
    requires |fields| >= 1
    ensures fields[0] <= Join(fields, sep)
  {
  }

  /** The first field holds no occurrence of the separator. */
  lemma {:induction false} SplitHeadFree(s: string, sep: string)
    requires sep != []
    ensures !Occurs(Split(s, sep)[0], sep)
    decreases |s|
  {
    if s != [] && !(sep <= s) {
      var rest := Split(s[1..], sep);
      SplitHead(s[1..], sep);
      SplitHeadFree(s[1..], sep);
      assert Split(s, sep)[0] == [s[0]] + rest[0];
      NoOccurrenceCons(s[0], rest[0], s, sep);
    }
  }

  lemma {:induction false} NoOccurrenceCons(c: char, f: string, s: string, sep: string)
    requires !Occurs(f, sep) && [c] + f <= s && !(sep <= s)
    ensures !Occurs([c] + f, sep)
  {
    var g := [c] + f;
    forall i | 0 <= i <= |g|
      ensures !(sep <= g[i..])
    {
      if i > 0 {
        assert g[i..] == f[i - 1..];
      }
    }
  }

  /** Joining the fields with the separator gives back the string. */
  lemma {:induction false} SplitJoin(s: string, sep: string)
    requires sep != []
    ensures Join(Split(s, sep), sep) == s
    decreases |s|
  {
    if s == [] {
    } else if sep <= s {
      SplitJoin(s[|sep|..], sep);
      SplitJoinMatch(s, sep);
    } else {
      SplitJoin(s[1..], sep);
      SplitJoinSkip(s, sep);
    }
  }

  lemma {:induction false} SplitJoinMatch(s: string, sep: string)
    requires sep != [] && s != [] && sep <= s
    requires Join(Split(s[|sep|..], sep), sep) == s[|sep|..]
    ensures Join(Split(s, sep), sep) == s
  {
    var rest := Split(s[|sep|..], sep);
    var fields: seq<string> := [[]] + rest;
    assert Split(s, sep) == fields;
    assert |fields| > 1 && fields[0] == [] && fields[1..] == rest;
    assert Join(fields, sep) == fields[0] + sep + Join(rest, sep);
    assert [] + sep == sep;
    PrefixRest(sep, s);
  }

  lemma {:induction false} SplitJoinSkip(s: string, sep: string)
    requires sep != [] && s != [] && !(sep <= s)
    requires Join(Split(s[1..], sep), sep) == s[1..]
    ensures Join(Split(s, sep), sep) == s
  {
    var rest := Split(s[1..], sep);
    assert Split(s, sep) == [[s[0]] + rest[0]] + rest[1..];
    JoinConsChar(s[0], rest, sep);
    assert s == [s[0]] + s[1..];
  }

  lemma {:induction false} JoinConsChar(c: char, fields: seq<string>, sep: string)
    requires |fields| >= 1
    ensures Join([[c] + fields[0]] + fields[1..], sep) == [c] + Join(fields, sep)
  {
    var g := [[c] + fields[0]] + fields[1..];
    if |fields| > 1 {
      assert g[1..] == fields[1..];
    }
  }

  /** One more field than non-overlapping occurrences of the separator. */
  lemma {:induction false} SplitCount(s: string, sep: string)
    requires sep != []
    ensures |Split(s, sep)| == Count(s, sep) + 1
    decreases |s|
  {
    if s == [] {
    } else if sep <= s {
      SplitCount(s[|sep|..], sep);
    } else {
      SplitCount(s[1..], sep);
    }
  }

  /** A string splits into one field exactly when the separator does not occur in it. */
  lemma {:induction false} SplitSingleIffAbsent(s: string, sep: string)
    requires sep != []
    ensures |Split(s, sep)| == 1 <==> !Occurs(s, sep)
  {
    SplitHead(s, sep);
    SplitHeadFree(s, sep);
    var fields := Split(s, sep);
    if |fields| > 1 {
      assert sep <= s[|fields[0]|..];
    }
  }

  /** Replacing is splitting on the pattern and joining with the substitute. */
  lemma {:induction false} ReplaceIsJoinOfSplit(s: string, pat: string, sub: string)
    requires pat != []
    ensures ReplaceAll(s, pat, sub) == Join(Split(s, pat), sub)
    decreases |s|
  {
    if s == [] {
    } else if pat <= s {
      ReplaceIsJoinOfSplit(s[|pat|..], pat, sub);
      assert Split(s, pat)[1..] == Split(s[|pat|..], pat);
    } else {
      ReplaceIsJoinOfSplit(s[1..], pat, sub);
      JoinConsChar(s[0], Split(s[1..], pat), sub);
    }
  }

  /** Each occurrence changes the length by `|sub| - |pat|`. */
  lemma {:induction false} ReplaceLength(s: string, pat: string, sub: string)
    ensures |ReplaceAll(s, pat, sub)| == |s| + Count(s, pat) * (|sub| - |pat|)
    decreases |s|
  {
    var d := |sub| - |pat|;
    if s == [] {
    } else if pat == [] {
      ReplaceLength(s[1..], pat, sub);
      MulSucc(|s|, d);
    } else if pat <= s {
      ReplaceLength(s[|pat|..], pat, sub);
      MulSucc(Count(s[|pat|..], pat), d);
    } else {
      ReplaceLength(s[1..], pat, sub);
    }
  }

  lemma {:induction false} MulSucc(k: int, d: int)
    ensures (k + 1) * d == k * d + d
  {
  }

  /** Replacing a pattern by itself changes nothing. */
  lemma {:induction false} ReplaceSelf(s: string, pat: string)
    ensures ReplaceAll(s, pat, pat) == s
    decreases |s|
  {
    if s == [] {
    } else if pat == [] {
      ReplaceSelf(s[1..], pat);
      assert s == [s[0]] + s[1..];
    } else if pat <= s {
      ReplaceSelf(s[|pat|..], pat);
      PrefixRest(pat, s);
      ReplaceFront(s[|pat|..], pat, pat);
    } else {
      ReplaceSelf(s[1..], pat);
      assert s == [s[0]] + s[1..];
      ReplaceSkip(s[0], s[1..], pat, pat);
    }
  }

  /** A string without the pattern is copied unchanged, and it is exactly the strings with no occurrence to count. */
  lemma {:induction false} ReplaceAbsent(s: string, pat: string, sub: string)
    requires pat != []
    ensures Count(s, pat) == 0 <==> !Occurs(s, pat)
    ensures !Occurs(s, pat) ==> ReplaceAll(s, pat, sub) == s
    decreases |s|
  {
    if s != [] {
      OccursShift(s, pat);
      if !(pat <= s) {
        ReplaceAbsent(s[1..], pat, sub);
        assert Count(s, pat) == Count(s[1..], pat);
        assert s == [s[0]] + s[1..];
        ReplaceSkip(s[0], s[1..], pat, sub);
      }
    }
  }

  /** An occurrence is at the front or further on. */
  lemma {:induction false} OccursShift(s: string, pat: string)
    requires s != []
    ensures Occurs(s, pat) <==> pat <= s || Occurs(s[1..], pat)
  {
    assert s[0..] == s;
    if Occurs(s, pat) && !(pat <= s) {
      var i :| 0 <= i <= |s| && pat <= s[i..];
      assert s[i..] == s[1..][i - 1..];
    }
    if Occurs(s[1..], pat) {
      var i :| 0 <= i <= |s[1..]| && pat <= s[1..][i..];
      assert s[1..][i..] == s[i + 1..];
    }
  }

  /**
   * Replacing distributes over a concatenation whose left part ends in a
   * character the pattern does not contain: no occurrence straddles the seam.
   */
  lemma {:induction false} ReplaceAppend(a: string, b: string, pat: string, sub: string)
    requires pat != []
    requires a != [] ==> a[|a| - 1] !in pat
    ensures ReplaceAll(a + b, pat, sub) == ReplaceAll(a, pat, sub) + ReplaceAll(b, pat, sub)
    decreases |a|
  {
    if a == [] {
      assert a + b == b;
    } else if pat <= a + b {
      if |pat| > |a| {
        PrefixMember(pat, a + b, |a| - 1);
        assert false;
      }
      assert pat <= a;
      ReplaceAppend(a[|pat|..], b, pat, sub);
      ReplaceAppendMatch(a, b, pat, sub);
    } else {
      ReplaceAppend(a[1..], b, pat, sub);
      ReplaceAppendSkip(a, b, pat, sub);
    }
  }

  lemma {:induction false} ReplaceAppendMatch(a: string, b: string, pat: string, sub: string)
    requires pat != [] && pat <= a
    requires ReplaceAll(a[|pat|..] + b, pat, sub) == ReplaceAll(a[|pat|..], pat, sub) + ReplaceAll(b, pat, sub)
    ensures ReplaceAll(a + b, pat, sub) == ReplaceAll(a, pat, sub) + ReplaceAll(b, pat, sub)
  {
    var rest := a[|pat|..];
    assert a == pat + rest;
    AppendAssoc(pat, rest, b);
    ReplaceFront(rest, pat, sub);
    ReplaceFront(rest + b, pat, sub);
    AppendAssoc(sub, ReplaceAll(rest, pat, sub), ReplaceAll(b, pat, sub));
  }

  /** A string that starts with the pattern: the substitute, then the rest replaced. */
  lemma {:induction false} ReplaceFront(rest: string, pat: string, sub: string)
    requires pat != []
    ensures ReplaceAll(pat + rest, pat, sub) == sub + ReplaceAll(rest, pat, sub)
  {
    var s := pat + rest;
    assert pat <= s && s[|pat|..] == rest;
  }

  /** A string that does not start with the pattern: its first character, then the rest replaced. */
  lemma {:induction false} ReplaceSkip(c: char, rest: string, pat: string, sub: string)
    requires pat != [] && !(pat <= [c] + rest)
    ensures ReplaceAll([c] + rest, pat, sub) == [c] + ReplaceAll(rest, pat, sub)
  {
    var s := [c] + rest;
    assert s[0] == c && s[1..] == rest;
  }

  lemma {:induction false} ReplaceAppendSkip(a: string, b: string, pat: string, sub: string)
    requires pat != [] && a != [] && !(pat <= a + b)
    requires ReplaceAll(a[1..] + b, pat, sub) == ReplaceAll(a[1..], pat, sub) + ReplaceAll(b, pat, sub)
    ensures ReplaceAll(a + b, pat, sub) == ReplaceAll(a, pat, sub) + ReplaceAll(b, pat, sub)
  {
    var rest := a[1..];
    assert a == [a[0]] + rest;
    AppendAssoc([a[0]], rest, b);
    assert !(pat <= a);
    ReplaceSkip(a[0], rest, pat, sub);
    ReplaceSkip(a[0], rest + b, pat, sub);
    AppendAssoc([a[0]], ReplaceAll(rest, pat, sub), ReplaceAll(b, pat, sub));
  }

  lemma PrefixRest(p: string, s: string)
    requires p <= s
    ensures s == p + s[|p|..]
  {
  }

  lemma SliceJoin(s: string, k: int)
    requires 0 <= k <= |s|
    ensures s[..k] + s[k..] == s
  {
  }

  lemma AppendAssoc(x: string, y: string, z: string)
    ensures x + (y + z) == (x + y) + z
  {
  }

  lemma {:induction false} PrefixMember(p: string, s: string, k: int)
    ensures p <= s && 0 <= k < |p| ==> s[k] in p
  {
    if p <= s && 0 <= k < |p| {
      assert s[k] == p[k];
    }
  }

  /** A last character outside the pattern survives the replacement as the last character. */
  lemma {:induction false} ReplaceAppendLast(a: string, c: char, pat: string, sub: string)
    requires pat != [] && c !in pat
    ensures ReplaceAll(a + [c], pat, sub) == ReplaceAll(a, pat, sub) + [c]
    decreases |a|
  {
    if a == [] {
      assert !(pat <= [c]);
      assert [c][1..] == [];
    } else if pat <= a + [c] {
      if |pat| > |a| {
        PrefixMember(pat, a + [c], |a|);
        assert false;
      }
      assert pat <= a;
      assert (a + [c])[|pat|..] == a[|pat|..] + [c];
      ReplaceAppendLast(a[|pat|..], c, pat, sub);
    } else {
      assert !(pat <= a);
      assert (a + [c])[1..] == a[1..] + [c];
      ReplaceAppendLast(a[1..], c, pat, sub);
    }
  }

  /** The concatenation of a sequence of lines: the text of a file. */
  function Concat(lines: seq<string>): (text: string)
    decreases |lines|
  {
    if lines == [] then [] else lines[0] + Concat(lines[1..])
  }

  /**
   * The lines that iterating over a text file yields: each runs up to and
   * including a newline, and a last line without one holds the rest.
   */
  function Lines(text: string): (lines: seq<string>)
    ensures lines == [] <==> text == []
    ensures |lines| <= |text|
    decreases |text|
  {
    if text == [] then []
    else
      var rest := Lines(text[1..]);
      if text[0] == '\n' || rest == [] then [[text[0]]] + rest
      else [[text[0]] + rest[0]] + rest[1..]
  }

  /** Every line but the last ends with a newline. */
  predicate NewlineTerminated(lines: seq<string>) {
    forall i :: 0 <= i < |lines| - 1 ==> lines[i] != [] && lines[i][|lines[i]| - 1] == '\n'
  }

  /** What file iteration can yield: non-empty lines, newlines only at their ends. */
  predicate IsLineSequence(lines: seq<string>) {
    NewlineTerminated(lines) &&
    forall i :: 0 <= i < |lines| ==> lines[i] != [] && '\n' !in lines[i][..|lines[i]| - 1]
  }

  /** Splitting a text into lines loses nothing and yields a proper line sequence. */
  lemma {:induction false} LinesConcat(text: string)
    ensures Concat(Lines(text)) == text
    decreases |text|
  {
    if text != [] {
      LinesConcat(text[1..]);
      var rest := Lines(text[1..]);
      if text[0] == '\n' || rest == [] {
        assert Lines(text) == [[text[0]]] + rest;
        assert ([[text[0]]] + rest)[1..] == rest;
      } else {
        assert Lines(text) == [[text[0]] + rest[0]] + rest[1..];
        assert ([[text[0]] + rest[0]] + rest[1..])[1..] == rest[1..];
        assert Concat(rest) == rest[0] + Concat(rest[1..]);
      }
      assert text == [text[0]] + text[1..];
    }
  }

  /** The lines a text splits into form a proper line sequence. */
  lemma {:induction false} LinesWellFormed(text: string)
    ensures IsLineSequence(Lines(text))
    decreases |text|
  {
    if text != [] {
      LinesWellFormed(text[1..]);
      var rest := Lines(text[1..]);
      var lines := Lines(text);
      if text[0] == '\n' || rest == [] {
        assert lines == [[text[0]]] + rest;
        assert [text[0]][..0] == [];
      } else {
        var first := [text[0]] + rest[0];
        assert lines == [first] + rest[1..];
        assert first[..|first| - 1] == [text[0]] + rest[0][..|rest[0]| - 1];
      }
    }
  }

  /** Reading back the text of a line sequence gives the same lines. */
  lemma {:induction false} ConcatLines(lines: seq<string>)
    requires IsLineSequence(lines)
    ensures Lines(Concat(lines)) == lines
    decreases |lines|
  {
    if lines != [] {
      assert IsLineSequence(lines[1..]);
      ConcatLines(lines[1..]);
      LinesPrepend(lines[0], Concat(lines[1..]));
    }
  }

  lemma {:induction false} LinesPrepend(line: string, rest: string)
    requires line != [] && '\n' !in line[..|line| - 1]
    requires line[|line| - 1] == '\n' || rest == []
    ensures Lines(line + rest) == [line] + Lines(rest)
    decreases |line|
  {
    var t := line + rest;
    if |line| == 1 {
      assert t[0] == line[0] && t[1..] == rest && line == [line[0]];
      if line[0] == '\n' {
        assert Lines(t) == [[t[0]]] + Lines(t[1..]);
      } else {
        assert rest == [] && t == line && t[1..] == [] && line == [line[0]];
        assert Lines(t[1..]) == [] && Lines(rest) == [];
        assert Lines(t) == [[t[0]]];
      }
    } else {
      assert line[0] in line[..|line| - 1];
      assert t[1..] == line[1..] + rest;
      assert line[1..][..|line[1..]| - 1] == line[..|line| - 1][1..];
      LinesPrepend(line[1..], rest);
      assert line == [line[0]] + line[1..];
    }
  }
}
