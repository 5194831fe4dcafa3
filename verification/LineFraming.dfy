/** Splitting a byte stream into lines, and why it does not matter in which pieces the stream comes. */
module LineFraming {
  import opened Bytes

  const NEWLINE: byte := 10

  predicate NoNewline(data: bytes) {
    forall i :: 0 <= i < |data| ==> data[i] != NEWLINE
  }

  /** The complete lines of `data` without their newlines, and what follows the last of them. */
  function Split(data: bytes): (r: (seq<bytes>, bytes))
    decreases |data|
  {
    if NoNewline(data) then ([], data)
    else
      var n := FirstNewline(data);
      var (lines, rest) := Split(data[n + 1..]);
      ([data[..n]] + lines, rest)
  }

  function FirstNewline(data: bytes): (n: nat)
    requires !NoNewline(data)
    ensures n < |data| && data[n] == NEWLINE && NoNewline(data[..n])
  {
    if data[0] == NEWLINE then 0
    else
      assert exists i :: 0 <= i < |data[1..]| && data[1..][i] == NEWLINE by {
        var i :| 0 <= i < |data| && data[i] == NEWLINE;
        assert data[1..][i - 1] == NEWLINE;
      }
      1 + FirstNewline(data[1..])
  }

  /** The first newline, if any, as the source looks for it. */
  method Position(data: bytes) returns (n: Option<nat>)
    ensures n.None? <==> NoNewline(data)
    ensures n.Some? ==> n.value == FirstNewline(data)
  {
    for i := 0 to |data|
      invariant NoNewline(data[..i])
    {
      if data[i] == NEWLINE {
        FirstNewlineIs(data, i);
        return Some(i);
      }
    }
    assert data[..|data|] == data;
    n := None;
  }

  lemma {:induction false} FirstNewlineIs(data: bytes, n: nat)
    requires n < |data| && data[n] == NEWLINE && NoNewline(data[..n])
    ensures !NoNewline(data) && FirstNewline(data) == n
  {
    if n > 0 {
      assert data[..n][0] == data[0];
      assert data[1..][..n - 1] == data[..n][1..];
      FirstNewlineIs(data[1..], n - 1);
    }
  }

  lemma {:induction false} RestHasNoNewline(data: bytes)
    ensures NoNewline(Split(data).1)
    decreases |data|
  {
    if !NoNewline(data) {
      RestHasNoNewline(data[FirstNewline(data) + 1..]);
    }
  }

  /** A line that a first newline at `n` completes. */
  lemma SplitAt(data: bytes, n: nat)
    requires n < |data| && data[n] == NEWLINE && NoNewline(data[..n])
    ensures Split(data) == ([data[..n]] + Split(data[n + 1..]).0, Split(data[n + 1..]).1)
  {
    FirstNewlineIs(data, n);
    SplitOnce(data, n);
  }

  lemma SplitOnce(data: bytes, n: nat)
    requires !NoNewline(data) && FirstNewline(data) == n
    ensures Split(data) == ([data[..n]] + Split(data[n + 1..]).0, Split(data[n + 1..]).1)
  {
  }

  lemma AppendSlices(data: bytes, more: bytes, n: nat)
    requires n < |data|
    ensures (data + more)[..n] == data[..n] && (data + more)[n] == data[n]
    ensures (data + more)[n + 1..] == data[n + 1..] + more
  {
  }

  /** What has been split stays split: only the unfinished rest is looked at again. */
  lemma {:induction false} SplitAppend(data: bytes, more: bytes)
    ensures var (lines, rest) := Split(data);
            Split(data + more) == (lines + Split(rest + more).0, Split(rest + more).1)
    decreases |data|
  {
    if NoNewline(data) {
      assert [] + Split(data + more).0 == Split(data + more).0;
    } else {
      var n := FirstNewline(data);
      AppendSlices(data, more, n);
      SplitAt(data + more, n);
      SplitAppend(data[n + 1..], more);
      var (lines, rest) := Split(data[n + 1..]);
      Associates([data[..n]], lines, Split(rest + more).0);
    }
  }

  /** The bytes that complete lines take, newlines included. */
  function Length(lines: seq<bytes>): nat {
    if lines == [] then 0 else Length(lines[..|lines| - 1]) + |lines[|lines| - 1]| + 1
  }

  lemma {:induction false} LengthConcat(a: seq<bytes>, b: seq<bytes>)
    ensures Length(a + b) == Length(a) + Length(b)
    decreases |b|
  {
    if b == [] {
      assert a + b == a;
    } else {
      var m := |b| - 1;
      assert (a + b)[..|a + b| - 1] == a + b[..m];
      LengthConcat(a, b[..m]);
    }
  }

  lemma LengthOfOne(line: bytes)
    ensures Length([line]) == |line| + 1
  {
    assert [line][..0] == [];
  }

  /** Lines and rest account for every byte. */
  lemma {:induction false} SplitLength(data: bytes)
    ensures Length(Split(data).0) + |Split(data).1| == |data|
    decreases |data|
  {
    if !NoNewline(data) {
      var n := FirstNewline(data);
      var (lines, rest) := Split(data[n + 1..]);
      SplitLength(data[n + 1..]);
      LengthOfOne(data[..n]);
      LengthConcat([data[..n]], lines);
      assert Split(data) == ([data[..n]] + lines, rest);
    }
  }

  lemma SplitFirst(head: bytes, body: bytes)
    requires NoNewline(head)
    ensures Split(head + ([NEWLINE] + body)) == ([head] + Split(body).0, Split(body).1)
  {
    var data := head + ([NEWLINE] + body);
    assert data[..|head|] == head && data[|head| + 1..] == body;
    SplitAt(data, |head|);
  }

  /** The data is its complete lines and what follows them. */
  lemma {:induction false} FrontAndRest(data: bytes) returns (front: bytes)
    ensures data == front + Split(data).1 && Split(front) == (Split(data).0, [])
    decreases |data|
  {
    if NoNewline(data) {
      front := [];
      assert [] + data == data;
    } else {
      var n := FirstNewline(data);
      var head, tail := data[..n], data[n + 1..];
      var back := FrontAndRest(tail);
      front := head + ([NEWLINE] + back);
      CutAt(data, n);
      FrontGrown(head, tail, back, Split(tail).0, Split(tail).1);
    }
  }

  lemma CutAt(data: bytes, n: nat)
    requires n < |data| && data[n] == NEWLINE
    ensures data == data[..n] + ([NEWLINE] + data[n + 1..])
  {
  }

  lemma FrontGrown(head: bytes, tail: bytes, back: bytes, lines: seq<bytes>, rest: bytes)
    requires NoNewline(head) && tail == back + rest && Split(tail) == (lines, rest) && Split(back) == (lines, [])
    ensures var data, front := head + ([NEWLINE] + tail), head + ([NEWLINE] + back);
            data == front + rest && Split(data) == ([head] + lines, rest) && Split(front) == ([head] + lines, [])
  {
    SplitFirst(head, back);
    SplitFirst(head, tail);
    Associates([NEWLINE], back, rest);
    Associates(head, [NEWLINE] + back, rest);
  }

  /** Without its unfinished rest, a stream ends in a newline or is empty. */
  lemma SplitWithoutRest(data: bytes)
    ensures var (lines, rest) := Split(data);
            |rest| <= |data| && data[|data| - |rest|..] == rest && Split(data[..|data| - |rest|]) == (lines, [])
  {
    var front := FrontAndRest(data);
    assert data[..|front|] == front;
  }

  lemma NoNewlineJoined(a: bytes, b: bytes)
    requires NoNewline(a) && NoNewline(b)
    ensures NoNewline(a + b)
  {
  }

  /** A newline completes the unfinished line. */
  lemma SplitCompleted(data: bytes, more: bytes)
    requires NoNewline(more)
    ensures Split(data + (more + [NEWLINE])) == (Split(data).0 + [Split(data).1 + more], [])
  {
    var rest := Split(data).1;
    var line := rest + more;
    RestHasNoNewline(data);
    NoNewlineJoined(rest, more);
    SplitAppend(data, more + [NEWLINE]);
    assert rest + (more + [NEWLINE]) == line + [NEWLINE];
    SplitLine(line);
  }

  lemma SplitLine(line: bytes)
    requires NoNewline(line)
    ensures Split(line + [NEWLINE]) == ([line], [])
  {
    var data := line + [NEWLINE];
    assert data[..|line|] == line && data[|line| + 1..] == [];
    SplitAt(data, |line|);
    assert [line] + [] == [line];
  }

  /** Without a newline the unfinished line grows. */
  lemma SplitGrown(data: bytes, more: bytes)
    requires NoNewline(more)
    ensures Split(data + more) == (Split(data).0, Split(data).1 + more)
  {
    RestHasNoNewline(data);
    NoNewlineJoined(Split(data).1, more);
    SplitAppend(data, more);
    assert Split(data).0 + [] == Split(data).0;
  }

  /** These are all the lines of `data`, which has no unfinished one. */
  predicate AreLines(lines: seq<bytes>, data: bytes) {
    Split(data) == (lines, [])
  }

  /** The bytes of the first lines. */
  lemma {:induction false} FrontOfLines(data: bytes, lines: seq<bytes>) returns (front: bytes)
    requires lines <= Split(data).0
    ensures front <= data && |front| == Length(lines) && Split(front) == (lines, [])
    decreases |data|
  {
    if lines == [] {
      return [];
    }
    var n := FirstNewline(data);
    var head, tail, later := data[..n], data[n + 1..], lines[1..];
    LaterLines(lines, head, Split(tail).0, Split(data).0);
    var back := FrontOfLines(tail, later);
    front := head + ([NEWLINE] + back);
    CutAt(data, n);
    LinesGrown(head, tail, back, later);
  }

  lemma LaterLines(lines: seq<bytes>, head: bytes, later: seq<bytes>, all: seq<bytes>)
    requires lines != [] && all == [head] + later && lines <= all
    ensures lines == [head] + lines[1..] && lines[1..] <= later
  {
  }

  lemma LinesGrown(head: bytes, tail: bytes, back: bytes, lines: seq<bytes>)
    requires NoNewline(head) && back <= tail && Split(back) == (lines, []) && |back| == Length(lines)
    ensures var front := head + ([NEWLINE] + back);
            && front <= head + ([NEWLINE] + tail)
            && Split(front) == ([head] + lines, []) && |front| == Length([head] + lines)
  {
    SplitFirst(head, back);
    LengthConcat([head], lines);
    LengthOfOne(head);
    PrefixGrown(head + [NEWLINE], back, tail);
    Associates(head, [NEWLINE], back);
    Associates(head, [NEWLINE], tail);
  }

  lemma PrefixGrown(a: bytes, b: bytes, c: bytes)
    requires b <= c
    ensures a + b <= a + c
  {
  }

  /** Complete lines end in a newline. */
  lemma {:induction false} CompleteEndsInNewline(data: bytes)
    requires Split(data).1 == [] && data != []
    ensures data[|data| - 1] == NEWLINE
    decreases |data|
  {
    var n := FirstNewline(data);
    if data[n + 1..] != [] {
      CompleteEndsInNewline(data[n + 1..]);
    }
  }

  // ----- what splitting is, without saying how

  /** The lines, each with a line feed behind it, and the rest. */
  function Join(lines: seq<bytes>, rest: bytes): bytes {
    if lines == [] then rest else lines[0] + ([10] + Join(lines[1..], rest))
  }

  predicate IsSplit(data: bytes, lines: seq<bytes>, rest: bytes) {
    data == Join(lines, rest) && 10 !in rest && forall i :: 0 <= i < |lines| ==> 10 !in lines[i]
  }

  lemma {:induction false} SplitIsSplit(data: bytes)
    ensures IsSplit(data, Split(data).0, Split(data).1)
    decreases |data|
  {
    if !NoNewline(data) {
      var n := FirstNewline(data);
      SplitIsSplit(data[n + 1..]);
      assert data == data[..n] + ([10] + data[n + 1..]);
      var more := Split(data[n + 1..]).0;
      assert ([data[..n]] + more)[1..] == more;
    }
  }

  lemma FirstOfJoin(data: bytes, first: bytes, later: bytes)
    requires data == first + ([10] + later)
    ensures |first| < |data| && data[..|first|] == first && data[|first|] == 10 && data[|first| + 1..] == later
  {
  }

  lemma {:induction false} IsSplitOnce(data: bytes, lines: seq<bytes>, rest: bytes)
    requires IsSplit(data, lines, rest)
    ensures Split(data) == (lines, rest)
    decreases |lines|
  {
    if lines != [] {
      var first, later := lines[0], Join(lines[1..], rest);
      FirstOfJoin(data, first, later);
      IsSplitOnce(later, lines[1..], rest);
      SplitAt(data, |first|);
      assert lines == [first] + lines[1..];
    }
  }

  /** Splitting finds the only lines and rest without line feeds that the data is made of. */
  lemma SplitExactly(data: bytes, lines: seq<bytes>, rest: bytes)
    ensures Split(data) == (lines, rest) <==> IsSplit(data, lines, rest)
  {
    SplitIsSplit(data);
    if IsSplit(data, lines, rest) {
      IsSplitOnce(data, lines, rest);
    }
  }
}
