/**
 * The worked examples of the protocol, checked against the model: the exact
 * bytes of a set command, and how read and size replies are judged.
 */
module Scenarios {
  import opened Types
  import opened Wire

  /** Setting (3, 4) to red writes exactly `PX 3 4 ff0000\n`. */
  lemma ScenarioPut()
    ensures PutCommand(Pixel(3, 4, 0xff, 0, 0, 0), false) == "PX 3 4 ff0000\n"
  {
  }

  lemma ScenarioReplyLines()
    ensures PxLine(3, 4, Rgb(0, 0xff, 0)) == "PX 3 4 00ff00"
    ensures PxLine(9, 9, Rgb(0, 0xff, 0)) == "PX 9 9 00ff00"
  {
    assert Decimal(3) == "3" && Decimal(4) == "4" && Decimal(9) == "9";
    assert HexChar(15) == 'f';
    assert Hex2(0) == "00" && Hex2(0xff) == "ff";
  }

  /** Reading (3, 4) against the reply `PX 3 4 00ff00` yields green. */
  lemma ScenarioGet()
    ensures CheckPxReply("PX 3 4 00ff00", 3, 4, GetYBound) == Success(Rgb(0, 0xff, 0))
  {
    ScenarioReplyLines();
    CheckEchoedReply(3, 4, 3, 4, Rgb(0, 0xff, 0), [], GetYBound);
    assert PxLine(3, 4, Rgb(0, 0xff, 0)) + [] == PxLine(3, 4, Rgb(0, 0xff, 0));
  }

  /** Reading (3, 4) against the reply `PX 9 9 00ff00` is a coordinate mismatch. */
  lemma ScenarioGetMismatch()
    ensures CheckPxReply("PX 9 9 00ff00", 3, 4, GetYBound) == Failure(GetUnexpectedCoords)
  {
    ScenarioReplyLines();
    CheckEchoedReply(3, 4, 9, 9, Rgb(0, 0xff, 0), [], GetYBound);
    assert PxLine(9, 9, Rgb(0, 0xff, 0)) + [] == PxLine(9, 9, Rgb(0, 0xff, 0));
  }

  /** The reply `SIZE 100 100` gives a 100 by 100 canvas. */
  lemma ScenarioSize()
    ensures CheckSizeReply("SIZE 100 100") == Success((100, 100))
  {
    assert Decimal(10) == "10";
    assert Decimal(100) == "100";
    assert "SIZE " + Decimal(100) + " " + Decimal(100) == "SIZE 100 100";
    CheckCanonicalSizeReply(100, 100);
  }
}
