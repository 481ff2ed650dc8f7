/**
 * Rendering `vault.hcl`: `replace` rewrites the copied template line by
 * line, and the handler runs it for `BUCKET_NAME` and then for `KEY_ID`.
 * The file is modelled as its text; each call splits it into the lines
 * that iterating over it yields. The temporary file and the move into
 * place are not modelled.
 */
module Config {
  import opened Wrappers
  import opened Text

  /**
   * `str.replace` refuses a substitute that is not a string: an environment
   * variable that is not set reaches `replace` as `None`.
   */
  datatype RenderError = SubstituteUnset(pattern: string)

  const BucketPlaceholder: string := "BUCKET_NAME"
  const KeyPlaceholder: string := "KEY_ID"

  /** Every line with the pattern replaced in it. */
  function ReplacedLines(lines: seq<string>, pattern: string, subst: string): (out: seq<string>)
    ensures |out| == |lines|
  {
    seq(|lines|, i requires 0 <= i < |lines| => ReplaceAll(lines[i], pattern, subst))
  }

  /**
   * The text of the file after `replace(file_path, pattern, subst)`: the
   * file is read line by line and each rewritten line written out. The
   * first `line.replace` call raises when the substitute is unset, so only
   * an empty file survives an unset substitute. For the placeholders, which
   * hold no newline, this is `str.replace` on the whole text.
   */
  function Rewrite(text: string, pattern: string, subst: Option<string>): (r: Result<string, RenderError>)
    ensures r.Failure? <==> subst.None? && text != []
    ensures r.Failure? ==> r.error == SubstituteUnset(pattern)
    ensures subst.None? && text == [] ==> r == Success([])
    ensures subst.Some? && pattern != [] && '\n' !in pattern ==> r == Success(ReplaceAll(text, pattern, subst.value))
  {
    match subst
    case Some(value) =>
      ReplaceFile(text, pattern, value);
      Success(Concat(ReplacedLines(Lines(text), pattern, value)))
    case None => if text == [] then Success([]) else Failure(SubstituteUnset(pattern))
  }

  /**
   * The configuration after both calls of the handler, in their order. The
   * second call re-reads the file the first one wrote, so it fails only when
   * that file is not empty.
   */
  function Rendered(template: string, bucket: Option<string>, keyId: Option<string>): (r: Result<string, RenderError>)
    ensures r.Failure? <==>
      (bucket.None? && template != []) ||
      (bucket.Some? && keyId.None? && ReplaceAll(template, BucketPlaceholder, bucket.value) != [])
    ensures bucket.None? && template != [] ==> r == Failure(SubstituteUnset(BucketPlaceholder))
    ensures bucket.Some? && r.Failure? ==> r == Failure(SubstituteUnset(KeyPlaceholder))
    ensures r.Success? && keyId.None? ==> r.value == []
    ensures bucket.Some? && keyId.Some? ==>
      r == Success(ReplaceAll(ReplaceAll(template, BucketPlaceholder, bucket.value), KeyPlaceholder, keyId.value))
  {
    match Rewrite(template, BucketPlaceholder, bucket)
    case Failure(e) => Failure(e)
    case Success(text) => Rewrite(text, KeyPlaceholder, keyId)
  }

  /**
   * `replace(file_path, pattern, subst)`: one pass over the lines of the
   * file, writing each rewritten line; the written text replaces the file.
   */
  method Replace(file: string, pattern: string, subst: Option<string>)
    returns (r: Result<string, RenderError>)
    ensures r.Failure? <==> subst.None? && file != []
    ensures r.Failure? ==> r.error == SubstituteUnset(pattern)
    ensures r.Success? && subst.None? ==> r.value == []
    ensures r.Success? && subst.Some? ==> r.value == Concat(ReplacedLines(Lines(file), pattern, subst.value))
  {
    var lines := Lines(file);
    var written: seq<string> := [];
    var i := 0;
    while i < |lines|
      invariant 0 <= i <= |lines|
      invariant |written| == i
      invariant i > 0 ==> subst.Some?
      invariant forall k :: 0 <= k < i ==>
        subst.Some? && written[k] == ReplaceAll(lines[k], pattern, subst.value)
    {
      if subst.None? {
        return Failure(SubstituteUnset(pattern));
      }
      written := written + [ReplaceAll(lines[i], pattern, subst.value)];
      i := i + 1;
    }
    if subst.Some? {
      assert written == ReplacedLines(lines, pattern, subst.value);
    }
    return Success(Concat(written));
  }

  /**
   * The template copied into place, then `BUCKET_NAME` and `KEY_ID`
   * replaced in turn, each call reading the file the previous step left.
   */
  method Render(template: string, bucket: Option<string>, keyId: Option<string>)
    returns (r: Result<string, RenderError>)
    ensures r == Rendered(template, bucket, keyId)
  {
    var first := Replace(template, BucketPlaceholder, bucket);
    RewriteAgrees(template, BucketPlaceholder, bucket, first);
    if first.Failure? {
      return first;
    }
    r := Replace(first.value, KeyPlaceholder, keyId);
    RewriteAgrees(first.value, KeyPlaceholder, keyId, r);
  }

  /** What `Replace` promises determines its result: it is `Rewrite`. */
  lemma {:induction false} RewriteAgrees(file: string, pattern: string, subst: Option<string>, r: Result<string, RenderError>)
    requires r.Failure? <==> subst.None? && file != []
    requires r.Failure? ==> r.error == SubstituteUnset(pattern)
    requires r.Success? && subst.None? ==> r.value == []
    requires r.Success? && subst.Some? ==> r.value == Concat(ReplacedLines(Lines(file), pattern, subst.value))
    ensures r == Rewrite(file, pattern, subst)
  {
  }

  /**
   * The number and order of lines stay; a line without the pattern is copied
   * unchanged; replacing the pattern with itself changes nothing; and each
   * line's length moves by `|subst| - |pattern|` per occurrence.
   */
  lemma {:induction false} ReplacedLinesShape(lines: seq<string>, pattern: string, subst: string)
    ensures var out := ReplacedLines(lines, pattern, subst);
      |out| == |lines| &&
      (forall i :: 0 <= i < |lines| ==>
        |out[i]| == |lines[i]| + Count(lines[i], pattern) * (|subst| - |pattern|)) &&
      (pattern != [] ==> forall i :: 0 <= i < |lines| && !Occurs(lines[i], pattern) ==> out[i] == lines[i]) &&
      (subst == pattern ==> out == lines)
  {
    var out := ReplacedLines(lines, pattern, subst);
    forall i | 0 <= i < |lines|
      ensures |out[i]| == |lines[i]| + Count(lines[i], pattern) * (|subst| - |pattern|)
      ensures pattern != [] && !Occurs(lines[i], pattern) ==> out[i] == lines[i]
      ensures subst == pattern ==> out[i] == lines[i]
    {
      ReplaceLength(lines[i], pattern, subst);
      if pattern != [] {
        ReplaceAbsent(lines[i], pattern, subst);
      }
      ReplaceSelf(lines[i], pattern);
    }
  }

  /**
   * For a pattern without a newline, rewriting line by line is rewriting
   * the whole text: no occurrence spans two lines.
   */
  lemma {:induction false} ReplaceLinewise(lines: seq<string>, pattern: string, subst: string)
    requires pattern != [] && '\n' !in pattern
    requires NewlineTerminated(lines)
    ensures Concat(ReplacedLines(lines, pattern, subst)) == ReplaceAll(Concat(lines), pattern, subst)
    decreases |lines|
  {
    if lines != [] {
      var head, tail := lines[0], lines[1..];
      assert NewlineTerminated(tail);
      ReplaceLinewise(tail, pattern, subst);
      var out := ReplacedLines(lines, pattern, subst);
      assert out[1..] == ReplacedLines(tail, pattern, subst);
      assert Concat(out) == ReplaceAll(head, pattern, subst) + Concat(ReplacedLines(tail, pattern, subst));
      if tail == [] {
        assert ReplacedLines(tail, pattern, subst) == [];
        assert Concat(lines) == head + [] == head;
      } else {
        ReplaceAppend(head, Concat(tail), pattern, subst);
      }
    }
  }

  /** Rewriting keeps every line but the last newline-terminated. */
  lemma {:induction false} ReplacedLinesTerminated(lines: seq<string>, pattern: string, subst: string)
    requires pattern != [] && '\n' !in pattern
    requires NewlineTerminated(lines)
    ensures NewlineTerminated(ReplacedLines(lines, pattern, subst))
  {
    var out := ReplacedLines(lines, pattern, subst);
    forall i | 0 <= i < |out| - 1
      ensures out[i] != [] && out[i][|out[i]| - 1] == '\n'
    {
      var line := lines[i];
      var n := |line| - 1;
      assert line == line[..n] + ['\n'];
      ReplaceAppendLast(line[..n], '\n', pattern, subst);
    }
  }

  /** `replace` on a file has the effect of `str.replace` on the file's whole text. */
  lemma {:induction false} ReplaceFile(text: string, pattern: string, subst: string)
    ensures pattern != [] && '\n' !in pattern ==>
      Concat(ReplacedLines(Lines(text), pattern, subst)) == ReplaceAll(text, pattern, subst)
  {
    if pattern != [] && '\n' !in pattern {
      LinesConcat(text);
      LinesWellFormed(text);
      ReplaceLinewise(Lines(text), pattern, subst);
    }
  }

  /**
   * The second call reads the file the first one wrote: a template that is
   * only the `BUCKET_NAME` placeholder, with an empty bucket name, leaves an
   * empty file, and the unset `KEY_ID` is then never used.
   */
  lemma {:induction false} RenderRereadsFile()
    ensures Rendered(BucketPlaceholder, Some([]), None) == Success([])
  {
    ReplaceFront([], BucketPlaceholder, []);
    assert BucketPlaceholder + [] == BucketPlaceholder;
  }
}
