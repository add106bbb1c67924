/** What the line reversal service computes: every complete line of the input, reversed. */
module LineReversal {
  import opened Ascii
  import opened Wrappers
  import opened Decimal
  import opened Lines
  import opened LrMessage

  function ReverseEach(lines: seq<seq<Byte>>): seq<seq<Byte>> {
    seq(|lines|, i requires 0 <= i < |lines| => Reverse(lines[i]))
  }

  /** The outgoing stream that an incoming stream calls for. */
  function Reversal(input: seq<Byte>): seq<Byte> {
    Join(ReverseEach(Complete(input, NEWLINE)), NEWLINE)
  }

  function Rest(input: seq<Byte>): seq<Byte> {
    Unfinished(input, NEWLINE)
  }

  lemma ReverseEachCons(line: seq<Byte>, lines: seq<seq<Byte>>)
    ensures ReverseEach([line] + lines) == [Reverse(line)] + ReverseEach(lines)
  {
  }

  lemma JoinReversed(line: seq<Byte>, lines: seq<seq<Byte>>)
    ensures Join(ReverseEach([line] + lines), NEWLINE) ==
            Reverse(line) + [NEWLINE] + Join(ReverseEach(lines), NEWLINE)
    ensures Join(ReverseEach([]), NEWLINE) == []
  {
    ReverseEachCons(line, lines);
    JoinCons(Reverse(line), ReverseEach(lines), NEWLINE);
  }

  /** Reversal one line at a time: how CheckDataStore computes it. */
  lemma ReversalStep(input: seq<Byte>)
    ensures var i := IndexOf(input, NEWLINE);
            if i == -1 then Reversal(input) == [] && Rest(input) == input
            else Reversal(input) == Reverse(input[..i]) + [NEWLINE] + Reversal(input[i + 1..]) &&
                 Rest(input) == Rest(input[i + 1..])
  {
    hide IndexOf, Complete, Unfinished, Join, ReverseEach, Reverse;
    var i := IndexOf(input, NEWLINE);
    CompleteStep(input, NEWLINE);
    if i == -1 {
      JoinReversed([], []);
    } else {
      JoinReversed(input[..i], Complete(input[i + 1..], NEWLINE));
    }
  }

  /** A line of the output has the bytes of its line of the input from last to first, and then the newline. */
  lemma ReversalOfLine(line: seq<Byte>)
    requires 10 !in line
    ensures |Reversal(line + [10])| == |line| + 1 && Reversal(line + [10])[|line|] == 10
    ensures forall i :: 0 <= i < |line| ==> Reversal(line + [10])[i] == line[|line| - 1 - i]
    ensures Rest(line + [10]) == [] && Reversal(line) == [] && Rest(line) == line
  {
    var input := line + [10];
    assert input[..|line|] == line;
    IndexOfFirst(input, NEWLINE, |line|);
    ReversalStep(input);
    ReversalStep(line);
    ReversalStep([]);
    assert input[|line| + 1..] == [];
  }

  lemma {:induction false} JoinAppend(a: seq<seq<Byte>>, b: seq<seq<Byte>>)
    ensures Join(a + b, NEWLINE) == Join(a, NEWLINE) + Join(b, NEWLINE)
  {
    if a == [] {
      assert a + b == b;
    } else {
      assert (a + b)[1..] == a[1..] + b;
      JoinAppend(a[1..], b);
      Assoc(a[0] + [NEWLINE], Join(a[1..], NEWLINE), Join(b, NEWLINE));
    }
  }

  /** More input extends the output at its end. */
  lemma ReversalAppend(a: seq<Byte>, b: seq<Byte>)
    ensures Reversal(a + b) == Reversal(a) + Reversal(Rest(a) + b)
    ensures Rest(a + b) == Rest(Rest(a) + b)
  {
    CutAppend(a, b, NEWLINE);
    var x, y := Complete(a, NEWLINE), Complete(Rest(a) + b, NEWLINE);
    assert ReverseEach(x + y) == ReverseEach(x) + ReverseEach(y);
    JoinAppend(ReverseEach(x), ReverseEach(y));
  }

  lemma {:induction false} JoinReversedLength(lines: seq<seq<Byte>>)
    ensures |Join(ReverseEach(lines), NEWLINE)| == |Join(lines, NEWLINE)|
  {
    if lines != [] {
      assert ReverseEach(lines)[1..] == ReverseEach(lines[1..]);
      JoinReversedLength(lines[1..]);
    }
  }

  /** The output is as long as the complete lines of the input. */
  lemma ReversalLength(input: seq<Byte>)
    ensures |Reversal(input)| + |Rest(input)| == |input|
  {
    CutAndJoin(input, NEWLINE);
    JoinReversedLength(Complete(input, NEWLINE));
  }

  /** Sending the output through the service again gives back the complete lines of the input. */
  lemma ReversalTwice(input: seq<Byte>)
    ensures Reversal(Reversal(input)) + Rest(input) == input
  {
    var lines := Complete(input, NEWLINE);
    LinesAreClean(input, NEWLINE);
    forall line | line in ReverseEach(lines)
      ensures NEWLINE !in line
    {
      var k :| 0 <= k < |lines| && line == Reverse(lines[k]);
      assert lines[k] in lines;
    }
    var output := Join(ReverseEach(lines), NEWLINE);
    assert output + [] == output;
    JoinAndCut(ReverseEach(lines), [], NEWLINE);
    forall k | 0 <= k < |lines|
      ensures Reverse(Reverse(lines[k])) == lines[k]
    {
    }
    assert ReverseEach(ReverseEach(lines)) == lines;
    CutAndJoin(input, NEWLINE);
  }
}
