/** Concrete lines run through the key derivation, with a 5-minute step and
    keys rendered in UTC. Each computation (printing a timestamp, its Unix
    seconds, and the key of an instant) is a small lemma of its own. */
module Scenarios {
  import opened Wrappers
  import opened Civil
  import opened AccessTime
  import opened EpochKey

  /** A line that is only `time:` followed by the printed form of `st` has
      the key of `st`'s instant. */
  lemma LiteralLineKey(st: Stamp, text: string, t: int, start: int, key: string)
    requires WellFormed(st)
    requires FormatAccessTime(st) == text
    requires Unix(st) == t && Align(t, 5) == start
    requires WindowKey(start, 0) == key
    ensures ParseEpoch("tsv", 5, 0, "time:" + text) == key
  {
    assert "time:" + text == "time:" + text + [];
    LeadingFieldKey(st, [], 5, 0);
  }

  // 2023-10-10 13:55:36 UTC: the 13:55 window.

  const StampA := Stamp(DateTime(2023, 10, 10, 13, 55, 36), false, 0, 0)

  lemma FormatA()
    ensures WellFormed(StampA)
    ensures FormatAccessTime(StampA) == "10/Oct/2023:13:55:36 +0000"
  {
  }

  lemma DaysOfOctober10()
    ensures DaysFromCivil(Date(2023, 10, 10)) == 19640
  {
  }

  lemma UnixA()
    ensures Unix(StampA) == 1696946136
  {
    DaysOfOctober10();
    assert SecondsFromCivil(StampA.local) == 1696946136;
    assert Offset(StampA) == 0;
  }

  lemma Key1355()
    ensures Align(1696946136, 5) == 1696946100
    ensures WindowKey(1696946100, 0) == "20231010135500"
  {
    var dt := DateTime(2023, 10, 10, 13, 55, 0);
    DaysOfOctober10();
    assert SecondsFromCivil(dt) == 1696946100;
    CivilSecondsRoundTrip(dt);
    KeyText1355();
  }

  lemma KeyText1355()
    ensures FormatKey(DateTime(2023, 10, 10, 13, 55, 0)) == "20231010135500"
  {
  }

  lemma KeyOfUtcLine()
    ensures ParseEpoch("tsv", 5, 0, "time:" + "10/Oct/2023:13:55:36 +0000") == "20231010135500"
  {
    FormatA();
    UnixA();
    Key1355();
    LiteralLineKey(StampA, "10/Oct/2023:13:55:36 +0000",
      1696946136, 1696946100, "20231010135500");
  }

  // One second before 13:55 falls in the 13:50 window.

  const StampB := Stamp(DateTime(2023, 10, 10, 13, 54, 59), false, 0, 0)

  lemma FormatB()
    ensures WellFormed(StampB)
    ensures FormatAccessTime(StampB) == "10/Oct/2023:13:54:59 +0000"
  {
  }

  lemma UnixB()
    ensures Unix(StampB) == 1696946099
  {
    DaysOfOctober10();
    assert SecondsFromCivil(StampB.local) == 1696946099;
    assert Offset(StampB) == 0;
  }

  lemma Key1350()
    ensures Align(1696946099, 5) == 1696945800
    ensures WindowKey(1696945800, 0) == "20231010135000"
  {
    var dt := DateTime(2023, 10, 10, 13, 50, 0);
    DaysOfOctober10();
    assert SecondsFromCivil(dt) == 1696945800;
    CivilSecondsRoundTrip(dt);
    KeyText1350();
  }

  lemma KeyText1350()
    ensures FormatKey(DateTime(2023, 10, 10, 13, 50, 0)) == "20231010135000"
  {
  }

  lemma KeyOneSecondEarlier()
    ensures ParseEpoch("tsv", 5, 0, "time:" + "10/Oct/2023:13:54:59 +0000") == "20231010135000"
  {
    FormatB();
    UnixB();
    Key1350();
    LiteralLineKey(StampB, "10/Oct/2023:13:54:59 +0000",
      1696946099, 1696945800, "20231010135000");
  }

  // The same instant written two hours east of UTC gets the same key.

  const StampC := Stamp(DateTime(2023, 10, 10, 15, 55, 36), false, 2, 0)

  lemma FormatC()
    ensures WellFormed(StampC)
    ensures FormatAccessTime(StampC) == "10/Oct/2023:15:55:36 +0200"
  {
  }

  lemma UnixC()
    ensures Unix(StampC) == 1696946136
  {
    DaysOfOctober10();
    assert SecondsFromCivil(StampC.local) == 1696953336;
    assert Offset(StampC) == 7200;
  }

  lemma KeyWithEastOffset()
    ensures ParseEpoch("tsv", 5, 0, "time:" + "10/Oct/2023:15:55:36 +0200") == "20231010135500"
  {
    FormatC();
    UnixC();
    Key1355();
    LiteralLineKey(StampC, "10/Oct/2023:15:55:36 +0200",
      1696946136, 1696946100, "20231010135500");
  }
}
