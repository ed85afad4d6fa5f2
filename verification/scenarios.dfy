/** Worked examples of the store operations on small concrete histories. */
module Scenarios {
  import opened Base
  import opened Store

  function At(ts: int, km: uint8): LightningEvent {
    LightningEvent(ts, km, 0, 8, true)
  }

  /** A day-old trim at 90001 drops the entries from 0 and 100 and keeps the one from 90000. */
  lemma TrimDropsDayOldEntries()
    ensures Trimmed([At(0, 3), At(100, 63), At(90000, 10)], 90001 - RETENTION_SECONDS) == [At(90000, 10)]
  {
    var h := [At(0, 3), At(100, 63), At(90000, 10)];
    assert h[1..][1..] == [At(90000, 10)];
  }

  /** With room for two, appending A, B, C leaves B, C. */
  lemma CapOfTwoKeepsLastTwo(a: LightningEvent, b: LightningEvent, c: LightningEvent)
    ensures Appended(Appended(Appended([], a, 2), b, 2), c, 2) == [b, c]
  {
    assert [a, b][1..] + [c] == [b, c];
  }

  /** An hour's window at 10000 over entries from 6000, 7000, 9999 and 10000 lists the
      last three, newest first: the scan stops at the entry from 6000. */
  lemma HourWindowListsNewestFirst()
    ensures Window([At(6000, 1), At(7000, 1), At(9999, 1), At(10000, 1)], 10000 - 3600)
         == [At(10000, 1), At(9999, 1), At(7000, 1)]
  {
    var c := 10000 - 3600;
    var h1 := [At(6000, 1)];
    var h2 := h1 + [At(7000, 1)];
    var h3 := h2 + [At(9999, 1)];
    var h4 := h3 + [At(10000, 1)];
    assert Window(h1, c) == [];
    assert h2[..1] == h1;
    assert Window(h2, c) == [At(7000, 1)];
    assert h3[..2] == h2;
    assert Window(h3, c) == [At(9999, 1), At(7000, 1)];
    assert h4[..3] == h3;
    assert h4 == [At(6000, 1), At(7000, 1), At(9999, 1), At(10000, 1)];
  }

  /** The same store tallied over that hour: three entries, all near; the stale entry from
      6000 is skipped. */
  lemma HourTallyOfSameStore()
    ensures Tally([At(6000, 1), At(7000, 1), At(9999, 1), At(10000, 1)], 10000 - 3600)
         == Stats(3, 3, 0, 0, 0)
  {
    var c := 10000 - 3600;
    var h1 := [At(6000, 1)];
    var h2 := h1 + [At(7000, 1)];
    var h3 := h2 + [At(9999, 1)];
    var h4 := h3 + [At(10000, 1)];
    assert h1[..0] == [];
    assert Tally(h1, c) == NoStats;
    assert h2[..1] == h1;
    assert Tally(h2, c) == Stats(1, 1, 0, 0, 0);
    assert h3[..2] == h2;
    assert Tally(h3, c) == Stats(2, 2, 0, 0, 0);
    assert h4[..3] == h3;
    assert h4 == [At(6000, 1), At(7000, 1), At(9999, 1), At(10000, 1)];
  }
}
