/** Per-stream accounting of the host-side test tool: which streams the
    enable mask turns on, and how each received frame updates a stream's
    count, drops and transit statistics. */
module StreamStats {
  import opened Sequences

  /** The streams the tool can subscribe to. */
  datatype StreamFlag = Rgb | Depth | Gyro | Imu | Safety

  function FlagBit(f: StreamFlag): bv32
  {
    match f
    case Rgb => 0x1
    case Depth => 0x2
    case Gyro => 0x4
    case Imu => 0x8
    case Safety => 0x10
  }

  predicate IsStreamEnabled(enableMask: bv32, f: StreamFlag)
    ensures IsStreamEnabled(enableMask, f) <==> enableMask & FlagBit(f) == FlagBit(f)
    ensures IsStreamEnabled(enableMask, f) ==> enableMask != 0
  {
    enableMask & FlagBit(f) != 0
  }

  /** Each flag owns one bit that no other flag shares. */
  lemma FlagBitsDisjoint(f: StreamFlag, g: StreamFlag)
    ensures FlagBit(f) & FlagBit(g) != 0 <==> f == g
  {
  }

  /** The enable mask that turns on exactly the listed streams. */
  function MaskOf(fs: seq<StreamFlag>): bv32
  {
    if |fs| == 0 then 0 else MaskOf(fs[..|fs| - 1]) | FlagBit(fs[|fs| - 1])
  }

  /** Masking distributes over the union of two masks. */
  lemma AndOverOr(m: bv32, b: bv32, c: bv32)
    ensures (m | b) & c == (m & c) | (b & c)
  {
  }

  /** A union of masks is empty only when both parts are. */
  lemma OrNonZero(x: bv32, y: bv32)
    ensures x | y != 0 <==> x != 0 || y != 0
  {
  }

  /** Adding one flag to a mask enables that stream and leaves every other
      stream as it was. */
  lemma AddFlag(m: bv32, g: StreamFlag, f: StreamFlag)
    ensures (m | FlagBit(g)) & FlagBit(f) != 0 <==> m & FlagBit(f) != 0 || g == f
  {
    var bg, bf := FlagBit(g), FlagBit(f);
    AndOverOr(m, bg, bf);
    OrNonZero(m & bf, bg & bf);
    FlagBitsDisjoint(g, f);
    assert (m | bg) & bf == (m & bf) | (bg & bf);
    assert bg & bf != 0 <==> g == f;
  }

  /** Appending one flag to the list enables that stream on top of the ones
      the shorter list enables. */
  lemma MaskStep(init: seq<StreamFlag>, g: StreamFlag, f: StreamFlag)
    ensures IsStreamEnabled(MaskOf(init + [g]), f) <==> IsStreamEnabled(MaskOf(init), f) || g == f
  {
    assert (init + [g])[..|init|] == init;
    AddFlag(MaskOf(init), g, f);
  }

  /** A stream is enabled by a mask built from a list of flags exactly when
      the list names it. */
  lemma {:induction false} MaskOfEnables(fs: seq<StreamFlag>, f: StreamFlag)
    ensures IsStreamEnabled(MaskOf(fs), f) <==> f in fs
  {
    if |fs| > 0 {
      var init, g := fs[..|fs| - 1], fs[|fs| - 1];
      MaskOfEnables(init, f);
      assert fs == init + [g];
      MaskStep(init, g, f);
    }
  }

  /** The tool's default mask enables the depth stream only. */
  const DefaultMask: bv32 := FlagBit(Depth)

  lemma DefaultMaskIsDepthOnly(f: StreamFlag)
    ensures IsStreamEnabled(DefaultMask, f) <==> f == Depth
  {
    FlagBitsDisjoint(Depth, f);
  }

  const Uint64Modulus: int := 0x1_0000_0000_0000_0000

  type Uint64 = n: int | 0 <= n < Uint64Modulus

  /** What the tool reads from one frame sample: its number, and the reception
      (host clock) and source (device clock) timestamps in nanoseconds. */
  datatype Frame = Frame(number: Uint64, received: int, sent: int)

  /** A stream's accumulated statistics. `lastNumber`, `maxTransit` and
      `minTransit` start uninitialised and mean nothing while `count` is 0;
      `transits` is every value fed to the running average of transits. */
  datatype Stats = Stats(count: nat, drops: nat, lastNumber: Uint64,
                         totalTransit: int, maxTransit: int, minTransit: int,
                         transits: seq<int>)

  /** Any state with no frames counted. */
  predicate IsFresh(st: Stats)
  {
    st.count == 0 && st.drops == 0 && st.totalTransit == 0 && st.transits == []
  }

  /** Transit time of a frame: reception time less the send time moved into
      the host's time domain by `timeOffset`. */
  function Transit(f: Frame, timeOffset: int): int
  {
    f.received - (f.sent + timeOffset)
  }

  /** A drop is a frame whose number is not the `uint64` successor of the
      previous frame's. */
  predicate Follows(previous: Uint64, number: Uint64)
  {
    (previous + 1) % Uint64Modulus == number
  }

  /** `process_frame`: one received frame updates the stream's statistics. */
  function ProcessFrame(st: Stats, f: Frame, timeOffset: int): (r: Stats)
    ensures r.count == st.count + 1 && r.lastNumber == f.number
    ensures r.drops == st.drops + (if st.count > 0 && !Follows(st.lastNumber, f.number) then 1 else 0)
    ensures r.transits == st.transits + [Transit(f, timeOffset)]
    ensures r.minTransit <= Transit(f, timeOffset) <= r.maxTransit
    ensures st.count == 0 ==> r.minTransit == r.maxTransit == Transit(f, timeOffset)
    ensures st.count > 0 ==> r.minTransit <= st.minTransit && st.maxTransit <= r.maxTransit
    ensures r.minTransit == Transit(f, timeOffset) || r.minTransit == st.minTransit
    ensures r.maxTransit == Transit(f, timeOffset) || r.maxTransit == st.maxTransit
  {
    var dropped := st.count != 0 && (st.lastNumber + 1) % Uint64Modulus != f.number;
    var transit := f.received - (f.sent + timeOffset);
    Stats(st.count + 1,
          if dropped then st.drops + 1 else st.drops,
          f.number,
          st.totalTransit + transit,
          if st.count == 0 || st.maxTransit < transit then transit else st.maxTransit,
          if st.count == 0 || st.minTransit > transit then transit else st.minTransit,
          st.transits + [transit])
  }

  /** The uninitialised fields of a fresh state do not influence the result
      of its first frame. */
  lemma FirstFrameIgnoresUninitialised(a: Stats, b: Stats, f: Frame, timeOffset: int)
    requires IsFresh(a) && IsFresh(b)
    ensures ProcessFrame(a, f, timeOffset) == ProcessFrame(b, f, timeOffset)
  {
  }

  /** The state after every frame of `frames`, in order, starting fresh. */
  function Replay(start: Stats, frames: seq<Frame>, timeOffset: int): (r: Stats)
    ensures r.count == start.count + |frames|
    ensures r.transits == start.transits + Transits(frames, timeOffset)
    ensures |frames| > 0 ==> r.lastNumber == frames[|frames| - 1].number
  {
    if |frames| == 0 then start
    else ProcessFrame(Replay(start, frames[..|frames| - 1], timeOffset), frames[|frames| - 1], timeOffset)
  }

  /** Reference count of drops: consecutive pairs that do not follow. */
  function DropsIn(frames: seq<Frame>): (r: nat)
    ensures |frames| > 0 ==> r < |frames|
    ensures r == 0 <==> forall j :: 1 <= j < |frames| ==> Follows(frames[j - 1].number, frames[j].number)
  {
    if |frames| <= 1 then 0
    else
      var breaks := if Follows(frames[|frames| - 2].number, frames[|frames| - 1].number) then 0 else 1;
      DropsIn(frames[..|frames| - 1]) + breaks
  }

  function Transits(frames: seq<Frame>, timeOffset: int): (r: seq<int>)
    ensures |r| == |frames|
  {
    if |frames| == 0 then [] else Transits(frames[..|frames| - 1], timeOffset) + [Transit(frames[|frames| - 1], timeOffset)]
  }

  /** After a run of frames from a fresh state every frame is counted, the
      drops are the breaks in numbering and the last number is the last
      frame's. */
  lemma {:induction false} ReplayCounts(start: Stats, frames: seq<Frame>, timeOffset: int)
    requires IsFresh(start)
    ensures var r := Replay(start, frames, timeOffset);
      && r.count == |frames|
      && r.drops == DropsIn(frames)
      && (|frames| > 0 ==> r.lastNumber == frames[|frames| - 1].number)
  {
    if |frames| > 0 {
      var init := frames[..|frames| - 1];
      ReplayCounts(start, init, timeOffset);
      if |init| > 0 {
        assert init[|init| - 1] == frames[|frames| - 2];
      }
    }
  }

  /** The running average is fed every transit in arrival order, and the
      total is their sum. */
  lemma {:induction false} ReplayTransits(start: Stats, frames: seq<Frame>, timeOffset: int)
    requires IsFresh(start)
    ensures var r := Replay(start, frames, timeOffset);
      r.transits == Transits(frames, timeOffset) && r.totalTransit == Sum(r.transits)
  {
    if |frames| > 0 {
      var init := frames[..|frames| - 1];
      ReplayTransits(start, init, timeOffset);
      var r := Replay(start, frames, timeOffset);
      assert r.transits[..|r.transits| - 1] == Replay(start, init, timeOffset).transits;
    }
  }

  /** Once a frame has arrived, min and max bound every transit fed so far
      and are themselves among them. */
  lemma {:induction false} ReplayBounds(start: Stats, frames: seq<Frame>, timeOffset: int)
    requires IsFresh(start)
    ensures var r := Replay(start, frames, timeOffset);
      && |r.transits| == |frames|
      && (forall j :: 0 <= j < |frames| ==> r.minTransit <= r.transits[j] <= r.maxTransit)
      && (|frames| > 0 ==> r.minTransit in r.transits && r.maxTransit in r.transits)
  {
    if |frames| > 0 {
      var init := frames[..|frames| - 1];
      ReplayBounds(start, init, timeOffset);
      var p := Replay(start, init, timeOffset);
      ReplayCounts(start, init, timeOffset);
      var r := ProcessFrame(p, frames[|frames| - 1], timeOffset);
      assert r.transits == p.transits + [r.transits[|init|]];
      forall j | 0 <= j < |frames|
        ensures r.minTransit <= r.transits[j] <= r.maxTransit
      {
        if j < |init| {
          assert r.transits[j] == p.transits[j];
        }
      }
    }
  }

  /** A gap in numbering is one drop; a repeated number counts too; the
      numbering may wrap at 2^64 without a drop. */
  lemma DropExamples()
    ensures DropsIn([Frame(0, 0, 0), Frame(1, 0, 0), Frame(2, 0, 0)]) == 0
    ensures DropsIn([Frame(0, 0, 0), Frame(1, 0, 0), Frame(5, 0, 0), Frame(6, 0, 0)]) == 1
    ensures DropsIn([Frame(7, 0, 0), Frame(7, 0, 0)]) == 1
    ensures DropsIn([Frame(Uint64Modulus - 1, 0, 0), Frame(0, 0, 0)]) == 0
  {
    var a := [Frame(0, 0, 0), Frame(1, 0, 0), Frame(2, 0, 0)];
    assert a[..2] == [Frame(0, 0, 0), Frame(1, 0, 0)];
    assert a[..2][..1] == [Frame(0, 0, 0)];
    var b := [Frame(0, 0, 0), Frame(1, 0, 0), Frame(5, 0, 0), Frame(6, 0, 0)];
    assert b[..3] == [Frame(0, 0, 0), Frame(1, 0, 0), Frame(5, 0, 0)];
    assert b[..3][..2] == [Frame(0, 0, 0), Frame(1, 0, 0)];
    assert b[..3][..2][..1] == [Frame(0, 0, 0)];
    var c := [Frame(7, 0, 0), Frame(7, 0, 0)];
    assert c[..1] == [Frame(7, 0, 0)];
    var d := [Frame(Uint64Modulus - 1, 0, 0), Frame(0, 0, 0)];
    assert d[..1] == [Frame(Uint64Modulus - 1, 0, 0)];
  }

  /** The tool captures a time offset of 0 when it builds its frame handler. */
  const ToolTimeOffset: int := 0

  lemma ToolTransitIsRawLatency(f: Frame)
    ensures Transit(f, ToolTimeOffset) == f.received - f.sent
  {
  }
}
