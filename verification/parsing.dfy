/** The batch parser both stages run on the body of an order file: strip the
    body, split it into lines, and keep each non-blank line that decodes as
    a JSON object, in order. Blank lines and lines that do not decode are
    skipped; parsing never fails. */
module Parsing {
  import opened Types
  import Text

  /** A line the parser keeps: not whitespace-only, and it decodes. */
  predicate Accepted(line: string, decode: string -> Option<Record>) {
    !Text.IsBlank(line) && decode(line).Some?
  }

  /** The records of the accepted lines, in line order. */
  function DecodeLines(lines: seq<string>, decode: string -> Option<Record>): (orders: seq<Record>)
    ensures |orders| <= |lines|
    decreases |lines|
  {
    if |lines| == 0 then []
    else
      var line := lines[|lines| - 1];
      var earlier := DecodeLines(lines[..|lines| - 1], decode);
      if Accepted(line, decode) then earlier + [decode(line).value] else earlier
  }

  /** The lines of an order file body: `body.strip().splitlines()`. */
  function BatchLines(body: string): seq<string> {
    Text.SplitLines(Text.Strip(body))
  }

  /** The orders of an order file body. */
  function ParseBatch(body: string, decode: string -> Option<Record>): (orders: seq<Record>)
    ensures |orders| <= |BatchLines(body)|
  {
    DecodeLines(BatchLines(body), decode)
  }

  /** The positions of the accepted lines, increasing; every accepted line is listed. */
  function AcceptedIndices(lines: seq<string>, decode: string -> Option<Record>): (idx: seq<nat>)
    ensures forall k :: 0 <= k < |idx| ==> idx[k] < |lines| && Accepted(lines[idx[k]], decode)
    ensures forall k, l :: 0 <= k < l < |idx| ==> idx[k] < idx[l]
    ensures forall i :: 0 <= i < |lines| && Accepted(lines[i], decode) ==> i in idx
    decreases |lines|
  {
    if |lines| == 0 then []
    else
      var n := |lines| - 1;
      var earlier := AcceptedIndices(lines[..n], decode);
      assert forall i :: 0 <= i < n ==> lines[..n][i] == lines[i];
      if Accepted(lines[n], decode) then earlier + [n] else earlier
  }

  /** The parsed orders are exactly the decoded accepted lines, one per
      accepted line, in input order. */
  lemma {:induction false} OrdersAreAcceptedLinesInOrder(lines: seq<string>, decode: string -> Option<Record>)
    ensures |DecodeLines(lines, decode)| == |AcceptedIndices(lines, decode)|
    ensures forall k :: 0 <= k < |DecodeLines(lines, decode)| ==>
      DecodeLines(lines, decode)[k] == decode(lines[AcceptedIndices(lines, decode)[k]]).value
    decreases |lines|
  {
    if |lines| > 0 {
      var n := |lines| - 1;
      var before := lines[..n];
      OrdersAreAcceptedLinesInOrder(before, decode);
      var earlier := DecodeLines(before, decode);
      var idx := AcceptedIndices(before, decode);
      var orders := DecodeLines(lines, decode);
      var all := AcceptedIndices(lines, decode);
      forall k | 0 <= k < |orders|
        ensures orders[k] == decode(lines[all[k]]).value
      {
        if k < |earlier| {
          assert orders[k] == earlier[k] && all[k] == idx[k];
          assert before[idx[k]] == lines[idx[k]];
        }
      }
    }
  }

  /** Decoding two runs of lines is decoding each in turn. */
  lemma {:induction false} DecodeLinesAppend(first: seq<string>, second: seq<string>, decode: string -> Option<Record>)
    ensures DecodeLines(first + second, decode) == DecodeLines(first, decode) + DecodeLines(second, decode)
    decreases |second|
  {
    if |second| == 0 {
      assert first + second == first;
    } else {
      var n := |second| - 1;
      assert (first + second)[..|first + second| - 1] == first + second[..n];
      assert (first + second)[|first + second| - 1] == second[n];
      DecodeLinesAppend(first, second[..n], decode);
    }
  }

  /** With no blank and no undecodable line, every line becomes an order. */
  lemma {:induction false} AllLinesAccepted(lines: seq<string>, decode: string -> Option<Record>)
    requires forall i :: 0 <= i < |lines| ==> Accepted(lines[i], decode)
    ensures |DecodeLines(lines, decode)| == |lines|
    decreases |lines|
  {
    if |lines| > 0 {
      AllLinesAccepted(lines[..|lines| - 1], decode);
    }
  }

  /** A body that is empty or whitespace only holds no orders. */
  lemma BlankBodyHasNoOrders(body: string, decode: string -> Option<Record>)
    requires Text.IsBlank(body)
    ensures ParseBatch(body, decode) == []
  {
  }

  /** One more line of the pass: its record is appended exactly when it is accepted. */
  lemma DecodeLinesStep(lines: seq<string>, i: int, decode: string -> Option<Record>)
    requires 0 <= i < |lines|
    ensures DecodeLines(lines[..i + 1], decode) ==
      if Accepted(lines[i], decode) then DecodeLines(lines[..i], decode) + [decode(lines[i]).value]
      else DecodeLines(lines[..i], decode)
  {
    assert lines[..i + 1][..i] == lines[..i];
  }

  /** The parser as the handlers write it: one pass over the lines,
      appending what decodes. */
  method ParseBatchLoop(body: string, decode: string -> Option<Record>) returns (orders: seq<Record>)
    ensures orders == ParseBatch(body, decode)
  {
    var lines := BatchLines(body);
    orders := [];
    for i := 0 to |lines|
      invariant orders == DecodeLines(lines[..i], decode)
    {
      DecodeLinesStep(lines, i, decode);
      var line := lines[i];
      if !Text.IsBlank(line) {
        match decode(line)
        case Some(order) => orders := orders + [order];
        case None =>
      }
    }
    assert lines[..|lines|] == lines;
  }

  /** Three lines joined by "\n", the middle one a single space: stripping
      leaves the body alone and splitting gives the three lines back. */
  lemma BatchLinesAroundBlank(first: string, last: string)
    requires Text.HasNoLineBreak(first) && Text.HasNoLineBreak(last)
    requires |first| > 0 && !Text.IsSpace(first[0])
    requires |last| > 0 && !Text.IsSpace(last[|last| - 1])
    ensures BatchLines(first + "\n \n" + last) == [first, " ", last]
  {
    var body := first + "\n \n" + last;
    var lines := [first, " ", last];
    assert Text.HasNoLineBreak(" ");
    Text.JoinThenSplitLines(lines);
    assert Text.Join(lines, "\n") == body by {
      assert Text.Join(lines[2..], "\n") == last;
      assert Text.Join(lines[1..], "\n") == " " + "\n" + last;
    }
    assert body[0] == first[0] && body[|body| - 1] == last[|last| - 1];
    Text.StripKeepsTrimmed(body);
  }

  /** An undecodable line, a blank line and a line that decodes: only the
      last line yields an order. */
  lemma SkipsBlankAndUndecodableLines(bad: string, good: string, decode: string -> Option<Record>, record: Record)
    requires Text.HasNoLineBreak(bad) && Text.HasNoLineBreak(good)
    requires |bad| > 0 && !Text.IsSpace(bad[0])
    requires |good| > 0 && !Text.IsSpace(good[|good| - 1])
    requires decode(bad) == None && decode(good) == Some(record)
    ensures ParseBatch(bad + "\n \n" + good, decode) == [record]
  {
    BatchLinesAroundBlank(bad, good);
    var lines := [bad, " ", good];
    assert lines[..2][..1] == [bad];
    assert Text.IsSpace(lines[1][0]) && |lines[1]| == 1;
    assert DecodeLines(lines[..1], decode) == [];
    assert DecodeLines(lines[..2], decode) == [];
  }

  /** The same with the undecodable line `{not json` and the record `{}`. */
  lemma ParseExample(decode: string -> Option<Record>, record: Record)
    requires decode("{not json") == None && decode("{}") == Some(record)
    ensures ParseBatch("{not json\n \n{}", decode) == [record]
  {
    assert Text.HasNoLineBreak("{not json") && Text.HasNoLineBreak("{}");
    SkipsBlankAndUndecodableLines("{not json", "{}", decode, record);
    assert "{not json" + "\n \n" + "{}" == "{not json\n \n{}";
  }
}
