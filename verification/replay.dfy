/** What recovery makes of a database file and the first `n` frames of a log: replaying the frames in
    order is the same as writing, for each unit, only the last frame that names it. */
module Replaying {
  import opened Storage

  /** The recovery loop, one frame at a time. */
  ghost function Replay(f: File, frames: seq<Frame>, n: nat): File {
    if n == 0 then f
    else
      var frame := FrameAt(frames, n - 1);
      Replay(f, frames, n - 1)[frame.slot := frame.block]
  }

  /** Index of the last of the first `n` frames that names unit `x`; -1 when none does. */
  ghost function LastFrame(frames: seq<Frame>, n: nat, x: nat): (k: int)
    ensures -1 <= k < n
    ensures k >= 0 ==> FrameAt(frames, k).slot == x
  {
    if n == 0 then -1
    else if FrameAt(frames, n - 1).slot == x then n - 1
    else LastFrame(frames, n - 1, x)
  }

  /** The block recovery leaves at unit `x`. */
  ghost function Recovered(f: File, zero: Block, frames: seq<Frame>, n: nat, x: nat): Block {
    var k := LastFrame(frames, n, x);
    if k >= 0 then FrameAt(frames, k).block else Get(f, zero, x)
  }

  lemma {:induction false} ReplayEqualsLastFrames(f: File, zero: Block, frames: seq<Frame>, n: nat, x: nat)
    ensures Get(Replay(f, frames, n), zero, x) == Recovered(f, zero, frames, n, x)
  {
    if n > 0 {
      ReplayEqualsLastFrames(f, zero, frames, n - 1, x);
    }
  }

  lemma {:induction false} LastFrameIsLast(frames: seq<Frame>, n: nat, k: nat)
    requires k < n
    ensures k <= LastFrame(frames, n, FrameAt(frames, k).slot)
  {
    if k < n - 1 {
      LastFrameIsLast(frames, n - 1, k);
    }
  }

  /** Frames at or past `n` have no influence. */
  lemma {:induction false} LastFrameLocal(a: seq<Frame>, b: seq<Frame>, n: nat, x: nat)
    requires forall k: nat :: k < n ==> FrameAt(a, k) == FrameAt(b, k)
    ensures LastFrame(a, n, x) == LastFrame(b, n, x)
  {
    if n > 0 {
      LastFrameLocal(a, b, n - 1, x);
    }
  }

  /** Later frames either leave the last frame of `x` alone or take over. */
  lemma {:induction false} LastFrameGrows(frames: seq<Frame>, m: nat, n: nat, x: nat)
    requires m <= n
    ensures LastFrame(frames, n, x) == LastFrame(frames, m, x) || m <= LastFrame(frames, n, x)
  {
    if m < n {
      LastFrameGrows(frames, m, n - 1, x);
    }
  }

  /** Replaying again over a file that a replay was already writing gives the same blocks: what the
      frames name is overwritten, and what they do not name was not touched. */
  lemma ReplayIdempotent(f: File, zero: Block, frames: seq<Frame>, i: nat, n: nat, x: nat)
    requires i <= n
    ensures Get(Replay(Replay(f, frames, i), frames, n), zero, x) == Get(Replay(f, frames, n), zero, x)
  {
    ReplayEqualsLastFrames(Replay(f, frames, i), zero, frames, n, x);
    ReplayEqualsLastFrames(f, zero, frames, n, x);
    ReplayEqualsLastFrames(f, zero, frames, i, x);
    LastFrameGrows(frames, i, n, x);
  }

  /** The database a reader is meant to see: element 0 is the header, element i the page i, for the
      units below the header's page count. */
  type View = seq<Block>

  ghost function ViewLength(header: Block): nat {
    if PageCount(header) == 0 then 1 else PageCount(header)
  }

  ghost function RecoveredView(f: File, zero: Block, frames: seq<Frame>, n: nat): (v: View)
    ensures |v| == ViewLength(Recovered(f, zero, frames, n, 0))
    ensures forall x: nat :: x < |v| ==> v[x] == Recovered(f, zero, frames, n, x)
  {
    seq(ViewLength(Recovered(f, zero, frames, n, 0)), x requires 0 <= x => Recovered(f, zero, frames, n, x))
  }
}
