/**
  The splitter `runLog` applies to a subprocess's combined output: the bytes
  are cut at line feeds, each piece is trimmed of white space, blank pieces
  are dropped and the rest are logged as info lines indented by two spaces,
  including a last piece that has no line feed after it.
 */
module RunLog {
  import opened GoStrings
  import opened GoPath

  /** The line one piece of output becomes, if any. */
  function Emit(piece: string): (r: seq<string>)
    ensures |r| <= 1
  {
    var s := TrimSpace(piece);
    if s == "" then [] else ["  " + s]
  }

  function EmitAll(pieces: seq<string>): seq<string> {
    if pieces == [] then [] else Emit(pieces[0]) + EmitAll(pieces[1..])
  }

  /** The reference: the piece before the first line feed, then the rest of the output. */
  function OutputLines(out: string): seq<string>
    decreases |out|
  {
    if '\n' !in out then Emit(out)
    else
      var i := IndexOf(out, '\n');
      Emit(out[..i]) + OutputLines(out[i + 1..])
  }

  /** The same lines, stated over strings.Split: split at line feeds, trim, drop blanks, indent. */
  lemma {:induction false} OutputLinesSplit(out: string)
    ensures OutputLines(out) == EmitAll(Split(out, '\n'))
    decreases |out|
  {
    if '\n' !in out {
      EmitAllOne(out);
    } else {
      var i := IndexOf(out, '\n');
      var head, rest := out[..i], out[i + 1..];
      OutputLinesSplit(rest);
      CutAt(out, i);
      SplitStep(head, rest);
    }
  }

  lemma CutAt(s: string, i: nat)
    requires i < |s|
    ensures s == s[..i] + [s[i]] + s[i + 1..]
  {
  }

  lemma SplitStep(head: string, rest: string)
    requires '\n' !in head
    ensures EmitAll(Split(head + "\n" + rest, '\n')) == Emit(head) + EmitAll(Split(rest, '\n'))
  {
    SplitAt(head, '\n', rest);
    EmitAllAppend([head], Split(rest, '\n'));
    EmitAllOne(head);
  }

  lemma {:induction false} EmitAllAppend(a: seq<string>, b: seq<string>)
    ensures EmitAll(a + b) == EmitAll(a) + EmitAll(b)
    decreases |a|
  {
    if a == [] {
      assert a + b == b;
    } else {
      assert (a + b)[0] == a[0];
      assert (a + b)[1..] == a[1..] + b;
      EmitAllAppend(a[1..], b);
    }
  }

  lemma EmitAllOne(x: string)
    ensures EmitAll([x]) == Emit(x)
  {
    assert [x][1..] == [];
  }

  /**
    The reader loop of `runLog`: one byte at a time into a line builder,
    which is trimmed and logged at each line feed and once more at the end.
   */
  method SplitOutput(out: string) returns (lines: seq<string>)
    ensures lines == OutputLines(out)
  {
    lines := ReadPieces(out);
    OutputLinesSplit(out);
  }

  method ReadPieces(out: string) returns (lines: seq<string>)
    ensures lines == EmitAll(Split(out, '\n'))
  {
    lines := [];
    var cur := "";
    var i := 0;
    ghost var done: seq<string> := [];
    while i < |out|
      invariant 0 <= i <= |out|
      invariant Split(out[..i], '\n') == done + [cur]
      invariant lines == EmitAll(done)
    {
      Advance(out, i, done, cur);
      if out[i] == '\n' {
        lines := Flush(lines, cur);
        done := done + [cur];
        cur := "";
      } else {
        cur := cur + [out[i]];
      }
      i := i + 1;
    }
    lines := Flush(lines, cur);
    assert out[..|out|] == out;
    EmitAllSnoc(done, cur);
  }

  /** The reader's state after one more byte. */
  lemma Advance(out: string, i: nat, done: seq<string>, cur: string)
    requires i < |out| && Split(out[..i], '\n') == done + [cur]
    ensures out[i] == '\n' ==>
      Split(out[..i + 1], '\n') == (done + [cur]) + [""] && EmitAll(done + [cur]) == EmitAll(done) + Emit(cur)
    ensures out[i] != '\n' ==> Split(out[..i + 1], '\n') == done + [cur + [out[i]]]
  {
    NextByte(out[..i], out[i], done, cur);
    assert out[..i + 1] == out[..i] + [out[i]];
    EmitAllSnoc(done, cur);
  }

  lemma EmitAllSnoc(done: seq<string>, cur: string)
    ensures EmitAll(done + [cur]) == EmitAll(done) + Emit(cur)
  {
    EmitAllAppend(done, [cur]);
    EmitAllOne(cur);
  }

  /**
    Trims the builder's text and logs it unless it is blank: the earlier
    lines are kept, and at most the one indented line is added. For a last
    piece with no line feed this is what the reference splitter gives.
   */
  method Flush(lines: seq<string>, cur: string) returns (r: seq<string>)
    ensures r == lines + Emit(cur)
    ensures r[..|lines|] == lines
    ensures |r| == |lines| + (if TrimSpace(cur) == "" then 0 else 1)
    ensures |r| > |lines| ==> r[|lines|] == "  " + TrimSpace(cur)
    ensures '\n' !in cur ==> r == lines + OutputLines(cur)
  {
    var s := TrimSpace(cur);
    r := lines;
    if s != "" {
      r := r + ["  " + s];
    }
  }

  /** One more byte either closes the last piece or extends it. */
  lemma NextByte(s: string, c: char, done: seq<string>, cur: string)
    requires Split(s, '\n') == done + [cur]
    ensures c == '\n' ==> Split(s + [c], '\n') == done + [cur] + [""]
    ensures c != '\n' ==> Split(s + [c], '\n') == done + [cur + [c]]
  {
    if c == '\n' {
      assert s + [c] == s + "\n" + "";
      SplitConcat(s, '\n', "");
    } else {
      SplitSnoc(s, c);
    }
  }

  lemma {:induction false} SplitSnoc(s: string, c: char)
    requires c != '\n'
    ensures
      var p, q := Split(s, '\n'), Split(s + [c], '\n');
      q == p[..|p| - 1] + [p[|p| - 1] + [c]]
    decreases |s|
  {
    if '\n' !in s {
      assert '\n' !in s + [c];
    } else {
      var i := IndexOf(s, '\n');
      var a, b := s[..i], s[i + 1..];
      assert s == a + "\n" + b;
      SplitSnoc(b, c);
      SplitSnocStep(a, b, c);
    }
  }

  /** The inductive step of SplitSnoc: one line in front of a text whose last part is extended. */
  lemma SplitSnocStep(a: string, b: string, c: char)
    requires c != '\n' && '\n' !in a
    requires
      var p, q := Split(b, '\n'), Split(b + [c], '\n');
      q == p[..|p| - 1] + [p[|p| - 1] + [c]]
    ensures
      var p, q := Split(a + "\n" + b, '\n'), Split(a + "\n" + b + [c], '\n');
      q == p[..|p| - 1] + [p[|p| - 1] + [c]]
  {
    assert a + "\n" + b + [c] == a + "\n" + (b + [c]);
    SplitAt(a, '\n', b);
    SplitAt(a, '\n', b + [c]);
    ConsSnoc(a, Split(b, '\n'), Split(b + [c], '\n'), c);
  }

  /** Extending the last part of a list extends the last part of the list with one more part in front. */
  lemma ConsSnoc(a: string, p: seq<string>, q: seq<string>, c: char)
    requires |p| >= 1 && q == p[..|p| - 1] + [p[|p| - 1] + [c]]
    ensures var p', q' := [a] + p, [a] + q;
      q' == p'[..|p'| - 1] + [p'[|p'| - 1] + [c]]
  {
    var n := |p|;
    ConsInit(a, p);
    LastOfCons(a, p);
    SeqAssoc([a], p[..n - 1], [p[n - 1] + [c]]);
  }

  /** A logged output line: two spaces, then text that neither starts nor ends with white space. */
  predicate Shaped(l: string) {
    |l| >= 3 && l[..2] == "  " && !IsSpace(l[2]) && !IsSpace(l[|l| - 1])
  }

  predicate AllShaped(ls: seq<string>) {
    forall k :: 0 <= k < |ls| ==> Shaped(ls[k])
  }

  lemma EmitShaped(piece: string)
    ensures AllShaped(Emit(piece))
  {
    var left := TrimLeftFunc(piece, IsSpace);
    var s := TrimRightFunc(left, IsSpace);
    assert s == TrimSpace(piece);
    if s != "" {
      assert s == left[..|s|];
      assert s[0] == left[0];
      IndentShaped(s);
    }
  }

  /** Trimmed, non-blank text indented by two spaces is a logged line. */
  lemma IndentShaped(s: string)
    requires s != "" && !IsSpace(s[0]) && !IsSpace(s[|s| - 1])
    ensures Shaped("  " + s)
  {
    var l := "  " + s;
    assert l[..2] == "  ";
    assert l[2] == s[0] && l[|l| - 1] == s[|s| - 1];
  }

  lemma ShapedAppend(a: seq<string>, b: seq<string>)
    requires AllShaped(a) && AllShaped(b)
    ensures AllShaped(a + b)
  {
    forall k | 0 <= k < |a + b|
      ensures Shaped((a + b)[k])
    {
      if k < |a| {
        assert (a + b)[k] == a[k];
      } else {
        assert (a + b)[k] == b[k - |a|];
      }
    }
  }

  /** Every emitted line is two spaces and then trimmed, non-blank text. */
  lemma {:induction false} OutputLinesShape(pieces: seq<string>)
    ensures AllShaped(EmitAll(pieces))
    decreases |pieces|
  {
    if pieces != [] {
      OutputLinesShape(pieces[1..]);
      EmitShaped(pieces[0]);
      ShapedAppend(Emit(pieces[0]), EmitAll(pieces[1..]));
    }
  }

  /** An unterminated last line is logged just as if it had its line feed. */
  lemma TrailingLineFeed(out: string)
    ensures OutputLines(out + "\n") == OutputLines(out)
  {
    OutputLinesSplit(out + "\n");
    OutputLinesSplit(out);
    SplitTrailingLineFeed(out);
    EmitAllBlank(Split(out, '\n'));
  }

  /** A final line feed adds one empty part. */
  lemma SplitTrailingLineFeed(out: string)
    ensures Split(out + "\n", '\n') == Split(out, '\n') + [""]
  {
    assert out + "\n" == out + "\n" + "";
    SplitConcat(out, '\n', "");
  }

  /** An empty last part logs nothing. */
  lemma EmitAllBlank(p: seq<string>)
    ensures EmitAll(p + [""]) == EmitAll(p)
  {
    EmitAllAppend(p, [""]);
    EmitAllOne("");
  }

  /** Output is logged piece by piece: a line feed separates independent parts. */
  lemma JoinedLines(a: string, b: string)
    ensures OutputLines(a + "\n" + b) == OutputLines(a) + OutputLines(b)
  {
    OutputLinesSplit(a + "\n" + b);
    OutputLinesSplit(a);
    OutputLinesSplit(b);
    SplitConcat(a, '\n', b);
    EmitAllAppend(Split(a, '\n'), Split(b, '\n'));
  }
}
