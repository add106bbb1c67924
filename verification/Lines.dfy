/** Cutting a byte stream at a terminator, the way the servers' read loops do:
    search the first terminator, take the line up to it, go on with the rest. */
module Lines {
  import opened Wrappers

  /** Position of the first x in s, -1 when there is none. */
  function IndexOf<T(==)>(s: seq<T>, x: T): (i: int)
    ensures -1 <= i < |s|
    ensures i == -1 <==> x !in s
    ensures i >= 0 ==> s[i] == x && x !in s[..i]
  {
    if s == [] then -1
    else if s[0] == x then 0
    else
      var rest := IndexOf(s[1..], x);
      assert s == [s[0]] + s[1..];
      if rest == -1 then -1
      else
        assert s[..rest + 1] == [s[0]] + s[1..][..rest];
        rest + 1
  }

  /** The complete lines of s, each without its terminator. */
  function Complete<T(==)>(s: seq<T>, end: T): seq<seq<T>>
    decreases |s|
  {
    var i := IndexOf(s, end);
    if i == -1 then [] else [s[..i]] + Complete(s[i + 1..], end)
  }

  /** What follows the last terminator of s. */
  function Unfinished<T(==)>(s: seq<T>, end: T): seq<T>
    decreases |s|
  {
    var i := IndexOf(s, end);
    if i == -1 then s else Unfinished(s[i + 1..], end)
  }

  lemma CompleteStep<T>(s: seq<T>, end: T)
    ensures var i := IndexOf(s, end);
            if i == -1 then Complete(s, end) == [] && Unfinished(s, end) == s
            else Complete(s, end) == [s[..i]] + Complete(s[i + 1..], end) &&
                 Unfinished(s, end) == Unfinished(s[i + 1..], end)
  {
  }

  /** The lines put back together with their terminators. */
  function Join<T>(lines: seq<seq<T>>, end: T): seq<T> {
    if lines == [] then [] else lines[0] + [end] + Join(lines[1..], end)
  }

  lemma {:induction false} IndexOfFirst<T>(s: seq<T>, x: T, i: nat)
    requires i < |s| && s[i] == x && x !in s[..i]
    ensures IndexOf(s, x) == i
  {
    if i > 0 {
      assert s[0] == s[..i][0];
      assert s[1..][..i - 1] == s[..i][1..];
      IndexOfFirst(s[1..], x, i - 1);
    }
  }

  lemma Cut<T>(s: seq<T>, i: nat)
    requires i < |s|
    ensures s == s[..i] + [s[i]] + s[i + 1..]
  {
  }

  lemma JoinCons<T>(line: seq<T>, lines: seq<seq<T>>, end: T)
    ensures Join([line] + lines, end) == line + [end] + Join(lines, end)
  {
    assert ([line] + lines)[1..] == lines;
  }

  /** Cutting loses nothing: the lines and the unfinished rest make up s again. */
  lemma {:induction false} CutAndJoin<T>(s: seq<T>, end: T)
    ensures s == Join(Complete(s, end), end) + Unfinished(s, end)
    decreases |s|
  {
    var i := IndexOf(s, end);
    if i != -1 {
      var line, rest := s[..i], s[i + 1..];
      var lines, tail := Complete(rest, end), Unfinished(rest, end);
      Cut(s, i);
      CutAndJoin(rest, end);
      JoinCons(line, lines, end);
      assert Complete(s, end) == [line] + lines && Unfinished(s, end) == tail;
      Assoc(line + [end], Join(lines, end), tail);
    }
  }

  /** The terminator occurs neither inside a line nor in the unfinished rest. */
  lemma {:induction false} LinesAreClean<T>(s: seq<T>, end: T)
    ensures end !in Unfinished(s, end)
    ensures forall line :: line in Complete(s, end) ==> end !in line
    decreases |s|
  {
    var i := IndexOf(s, end);
    if i != -1 {
      LinesAreClean(s[i + 1..], end);
    }
  }

  /** Cutting a joined stream gives back the lines and the rest. */
  lemma {:induction false} JoinAndCut<T>(lines: seq<seq<T>>, rest: seq<T>, end: T)
    requires forall line :: line in lines ==> end !in line
    requires end !in rest
    ensures Complete(Join(lines, end) + rest, end) == lines
    ensures Unfinished(Join(lines, end) + rest, end) == rest
  {
    var s := Join(lines, end) + rest;
    if lines == [] {
      assert s == rest;
    } else {
      var tail := Join(lines[1..], end) + rest;
      assert s == lines[0] + [end] + tail;
      assert s[..|lines[0]|] == lines[0];
      IndexOfFirst(s, end, |lines[0]|);
      assert s[|lines[0]| + 1..] == tail;
      JoinAndCut(lines[1..], rest, end);
    }
  }

  /** Bytes that come later do not move the first terminator. */
  lemma FirstInAppend<T>(a: seq<T>, b: seq<T>, end: T)
    requires IndexOf(a, end) >= 0
    ensures var i := IndexOf(a, end);
            IndexOf(a + b, end) == i && (a + b)[..i] == a[..i] && (a + b)[i + 1..] == a[i + 1..] + b
  {
    var i := IndexOf(a, end);
    assert (a + b)[..i] == a[..i];
    IndexOfFirst(a + b, end, i);
  }

  /** Cutting does not depend on how the stream arrives: bytes that come later only extend the
      unfinished rest of what came before. */
  lemma {:induction false} CutAppend<T>(a: seq<T>, b: seq<T>, end: T)
    ensures Complete(a + b, end) == Complete(a, end) + Complete(Unfinished(a, end) + b, end)
    ensures Unfinished(a + b, end) == Unfinished(Unfinished(a, end) + b, end)
    decreases |a|
  {
    hide Complete, Unfinished, IndexOf;
    var i := IndexOf(a, end);
    CompleteStep(a, end);
    if i != -1 {
      var rest := a[i + 1..];
      FirstInAppend(a, b, end);
      CompleteStep(a + b, end);
      CutAppend(rest, b, end);
      Assoc([a[..i]], Complete(rest, end), Complete(Unfinished(rest, end) + b, end));
    } else {
      assert [] + Complete(a + b, end) == Complete(a + b, end);
    }
  }
}
