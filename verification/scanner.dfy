/**
 The lines a `bufio.Scanner` yields with its default split function,
 `bufio.ScanLines`: the input is cut after every line feed, one carriage
 return before the cut is dropped, and a final segment without a line feed is
 returned as a last line. An empty input yields no line at all.
 */
module Scanner {
  import opened Bytes

  /** `line` without one trailing carriage return. */
  function DropCR(line: Bytes): (r: Bytes)
    ensures r == line || r + [CR] == line
    ensures |line| > 0 && line[|line| - 1] == CR ==> |r| == |line| - 1
    ensures !(|line| > 0 && line[|line| - 1] == CR) ==> r == line
  {
    if |line| > 0 && line[|line| - 1] == CR then line[..|line| - 1] else line
  }

  /** The tokens successive calls to Scan return for `data`. */
  function Lines(data: Bytes): (ls: seq<Bytes>)
    ensures |ls| == 0 <==> |data| == 0
    ensures forall i :: 0 <= i < |ls| ==> LF !in ls[i]
    decreases |data|
  {
    if |data| == 0 then []
    else
      var k := FirstIndex(data, LF);
      if k == |data| then
        assert data[..k] == data;
        [DropCR(data)]
      else
        var rest := Lines(data[k + 1..]);
        assert forall x :: x in DropCR(data[..k]) ==> x in data[..k];
        [DropCR(data[..k])] + rest
  }

  /**
   The text of the first token Scan returns: the input up to its first line
   feed, less one carriage return; the empty text when the input is empty.
   */
  function FirstLine(data: Bytes): (r: Bytes)
    ensures r == DropCR(data[..FirstIndex(data, LF)])
    ensures LF !in r
  {
    var ls := Lines(data);
    if |ls| == 0 then
      assert data[..FirstIndex(data, LF)] == [];
      []
    else
      assert data[..|data|] == data;
      ls[0]
  }

  /** Lines written one after another, each ended by CR LF as HTTP/1.1 frames them. */
  function Terminated(ls: seq<Bytes>): Bytes
    decreases |ls|
  {
    if |ls| == 0 then [] else ls[0] + [CR, LF] + Terminated(ls[1..])
  }

  /**
   The cut at a line feed: a line without a line feed, then a line feed and
   more input, scans as that line less one carriage return and then the lines
   of the rest. Lines may end in a bare LF or in CR LF.
   */
  lemma ScanLine(line: Bytes, rest: Bytes)
    requires LF !in line
    ensures Lines(line + [LF] + rest) == [DropCR(line)] + Lines(rest)
  {
    var data := line + [LF] + rest;
    FirstIndexAfter(line, LF, rest);
    assert data[..|line|] == line;
    assert data[|line| + 1..] == rest;
  }

  /** Scanning a CR LF terminated line and then more input yields that line and then the lines of the rest. */
  lemma ScanOneLine(line: Bytes, rest: Bytes)
    requires LF !in line
    ensures Lines(line + [CR, LF] + rest) == [line] + Lines(rest)
  {
    assert line + [CR, LF] + rest == (line + [CR]) + [LF] + rest;
    assert LF !in line + [CR];
    ScanLine(line + [CR], rest);
    assert (line + [CR])[..|line|] == line;
  }

  lemma TerminatedThen(ls: seq<Bytes>, rest: Bytes)
    requires |ls| > 0
    ensures Terminated(ls) + rest == ls[0] + [CR, LF] + (Terminated(ls[1..]) + rest)
  {
  }

  /** Scanning terminated lines yields the first of them, then the lines of the others and what follows. */
  lemma LinesOfTerminatedStep(ls: seq<Bytes>, rest: Bytes)
    requires |ls| > 0 && LF !in ls[0]
    ensures Lines(Terminated(ls) + rest) == [ls[0]] + Lines(Terminated(ls[1..]) + rest)
  {
    TerminatedThen(ls, rest);
    ScanOneLine(ls[0], Terminated(ls[1..]) + rest);
  }

  /** Scanning CR LF terminated lines gives them back, followed by the lines of whatever comes after. */
  lemma {:induction false} LinesOfTerminated(ls: seq<Bytes>, rest: Bytes)
    requires forall i :: 0 <= i < |ls| ==> LF !in ls[i]
    ensures Lines(Terminated(ls) + rest) == ls + Lines(rest)
    decreases |ls|
  {
    if |ls| == 0 {
      assert Terminated(ls) + rest == rest;
    } else {
      var tail := ls[1..];
      assert LF !in ls[0];
      LinesOfTerminatedStep(ls, rest);
      LinesOfTerminated(tail, rest);
      AppendAssoc([ls[0]], tail, Lines(rest));
      assert [ls[0]] + tail == ls;
    }
  }

  /** A final segment without a line feed is one last line, less a trailing carriage return. */
  lemma LinesOfFinal(tail: Bytes)
    requires LF !in tail
    ensures Lines(tail) == if |tail| == 0 then [] else [DropCR(tail)]
  {
    if |tail| > 0 {
      FirstIndexIs(tail, LF, |tail|);
      assert tail[..|tail|] == tail;
    }
  }
}
