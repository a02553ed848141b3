/** The appendix pass: sparse corrections written into the zeroed signed
    accumulator before the raster walk. Each appendix byte moves a running
    cursor forward by byte / 4 and writes 128 * (byte % 4) there; the cursor
    ranges over all 3 * w * h slots of the interleaved accumulator, and the
    first byte that moves it past the end stops the pass silently. */
module EmjcAppendix {
  import opened CArith

  /** The state of the pass after some prefix of the appendix: the cursor,
      the accumulator, and whether a byte has overrun the buffer. */
  datatype SeedState = SeedState(cursor: nat, buf: seq<int>, stopped: bool)

  function Zeros(n: nat): (z: seq<int>)
    ensures |z| == n && forall k :: 0 <= k < n ==> z[k] == 0
  {
    seq(n, _ => 0)
  }

  /** The value an appendix byte writes: one of 0, 128, 256, 384. */
  function Correction(b: Byte): int {
    128 * (b % 4)
  }

  /** The pass after its first `k` bytes, over an accumulator of `colors` slots. */
  function SeedPrefix(app: seq<Byte>, colors: nat, k: nat): (s: SeedState)
    requires k <= |app|
    ensures |s.buf| == colors
    ensures !s.stopped ==> s.cursor <= colors
  {
    if k == 0 then SeedState(0, Zeros(colors), false)
    else
      var s := SeedPrefix(app, colors, k - 1);
      if s.stopped then s
      else
        var c := s.cursor + app[k - 1] / 4;
        if c >= colors then SeedState(c, s.buf, true)
        else SeedState(c + 1, s.buf[c := Correction(app[k - 1])], false)
  }

  /** The accumulator once the whole appendix has been applied. */
  function Seeded(app: seq<Byte>, colors: nat): seq<int> {
    SeedPrefix(app, colors, |app|).buf
  }

  /** Where byte `j` of the appendix would write if the pass never stopped:
      one past the previous write, plus its own skip. */
  function Cursor(app: seq<Byte>, j: nat): nat
    requires j < |app|
  {
    if j == 0 then app[0] / 4 else Cursor(app, j - 1) + 1 + app[j] / 4
  }

  /** Write positions strictly increase. */
  lemma {:induction false} CursorIncreasing(app: seq<Byte>, i: nat, j: nat)
    requires i < j < |app|
    ensures Cursor(app, i) < Cursor(app, j)
  {
    if i < j - 1 {
      CursorIncreasing(app, i, j - 1);
    }
  }

  /** While the pass runs, its cursor is one past the last write; once it
      has stopped, the last byte it read overran the buffer. */
  lemma {:induction false} SeedCursor(app: seq<Byte>, colors: nat, k: nat)
    requires k <= |app|
    ensures var s := SeedPrefix(app, colors, k);
      && (!s.stopped ==> s.cursor == (if k == 0 then 0 else Cursor(app, k - 1) + 1))
      && (!s.stopped && k > 0 ==> Cursor(app, k - 1) < colors)
      && (s.stopped ==> k > 0 && Cursor(app, k - 1) >= colors)
  {
    if k > 0 {
      SeedCursor(app, colors, k - 1);
      if SeedPrefix(app, colors, k - 1).stopped {
        CursorIncreasing(app, k - 2, k - 1);
      }
    }
  }

  /** After k bytes, every byte j < k that aimed inside the buffer has left
      its correction at Cursor(app, j). */
  lemma {:induction false} SeedPrefixWritten(app: seq<Byte>, colors: nat, k: nat, j: nat)
    requires j < k <= |app| && Cursor(app, j) < colors
    ensures SeedPrefix(app, colors, k).buf[Cursor(app, j)] == Correction(app[j])
  {
    SeedCursor(app, colors, k - 1);
    if j < k - 1 {
      SeedPrefixWritten(app, colors, k - 1, j);
      CursorIncreasing(app, j, k - 1);
    }
  }

  /** After k bytes, a slot that none of them aimed at is still zero. */
  lemma {:induction false} SeedPrefixUntouched(app: seq<Byte>, colors: nat, k: nat, n: nat)
    requires k <= |app| && n < colors
    requires forall j :: 0 <= j < k ==> Cursor(app, j) != n
    ensures SeedPrefix(app, colors, k).buf[n] == 0
  {
    if k > 0 {
      SeedCursor(app, colors, k - 1);
      SeedPrefixUntouched(app, colors, k - 1, n);
      assert Cursor(app, k - 1) != n;
    }
  }

  /** A slot holds a correction exactly when some appendix byte aims at it
      within the buffer, and that byte's correction is what it holds. */
  lemma SeededWritten(app: seq<Byte>, colors: nat, j: nat)
    requires j < |app| && Cursor(app, j) < colors
    ensures |Seeded(app, colors)| == colors
    ensures Seeded(app, colors)[Cursor(app, j)] == Correction(app[j])
  {
    SeedPrefixWritten(app, colors, |app|, j);
  }

  lemma SeededUntouched(app: seq<Byte>, colors: nat, n: nat)
    requires n < colors
    requires forall j :: 0 <= j < |app| ==> Cursor(app, j) != n
    ensures |Seeded(app, colors)| == colors
    ensures Seeded(app, colors)[n] == 0
  {
    SeedPrefixUntouched(app, colors, |app|, n);
  }

  /** Once a byte overruns the buffer, it and every later byte are ignored:
      the result is that of the appendix cut just before it. */
  lemma {:induction false} SeededIgnoresTail(app: seq<Byte>, colors: nat, j: nat)
    requires j < |app| && Cursor(app, j) >= colors
    ensures Seeded(app, colors) == Seeded(app[..j], colors)
  {
    SeedCursor(app, colors, j);
    PrefixAgrees(app, j, colors, j);
    assert SeedPrefix(app, colors, j + 1).stopped;
    StoppedStays(app, colors, j + 1, |app|);
  }

  /** The pass over a prefix of the appendix reads only that prefix. */
  lemma {:induction false} PrefixAgrees(app: seq<Byte>, m: nat, colors: nat, k: nat)
    requires k <= m <= |app|
    ensures SeedPrefix(app[..m], colors, k) == SeedPrefix(app, colors, k)
  {
    if k > 0 {
      PrefixAgrees(app, m, colors, k - 1);
    }
  }

  /** A stopped pass stays stopped and changes nothing more. */
  lemma {:induction false} StoppedStays(app: seq<Byte>, colors: nat, m: nat, k: nat)
    requires m <= k <= |app|
    requires SeedPrefix(app, colors, m).stopped
    ensures SeedPrefix(app, colors, k) == SeedPrefix(app, colors, m)
  {
    if k > m {
      StoppedStays(app, colors, m, k - 1);
    }
  }

  /** Every slot holds one of the four corrections 0, 128, 256, 384. */
  lemma {:induction false} SeededValues(app: seq<Byte>, colors: nat, k: nat)
    requires k <= |app|
    ensures forall n :: 0 <= n < |SeedPrefix(app, colors, k).buf| ==>
      SeedPrefix(app, colors, k).buf[n] in {0, 128, 256, 384}
  {
    if k > 0 {
      SeededValues(app, colors, k - 1);
    }
  }

  /** The appendix loop, run over a zero-filled accumulator in place. */
  method SeedAppendix(buffer: array<int>, appendix: seq<Byte>)
    requires forall k :: 0 <= k < buffer.Length ==> buffer[k] == 0
    modifies buffer
    ensures buffer[..] == Seeded(appendix, buffer.Length)
  {
    var colors := buffer.Length;
    assert buffer[..] == Zeros(colors);
    var i, offset := 0, 0;
    while i < |appendix|
      invariant 0 <= i <= |appendix|
      invariant SeedPrefix(appendix, colors, i) == SeedState(offset, buffer[..], false)
    {
      offset := offset + appendix[i] / 4;
      if offset >= colors {
        StoppedStays(appendix, colors, i + 1, |appendix|);
        return;
      }
      buffer[offset] := Correction(appendix[i]);
      offset := offset + 1;
      i := i + 1;
    }
  }
}
