// The frame-pointer walk. `words` holds the words of the stopped target that can be read; reading any other throws.
module Backtraces {
  import opened Common

  type Words = map<Address, Address>

  datatype Frame = Frame(pc: Address, frame: Address)

  const LIMIT := 64

  /** g is the caller of f: f's frame holds g's frame pointer, and above it the return address into g. */
  predicate CalledFrom(words: Words, f: Frame, g: Frame) {
    && f.frame != 0
    && Plus(f.frame, 8) in words && g.pc == words[Plus(f.frame, 8)]
    && f.frame in words && g.frame == words[f.frame]
    && g.frame > f.frame
  }

  /** A chain of callers, innermost first. */
  predicate Chain(words: Words, start: Frame, frames: seq<Frame>) {
    && frames != [] && frames[0] == start
    && forall i | 0 <= i < |frames| - 1 :: CalledFrom(words, frames[i], frames[i + 1])
  }

  predicate HasCaller(words: Words, f: Frame) {
    f.frame != 0 && Plus(f.frame, 8) in words && f.frame in words && words[f.frame] > f.frame
  }

  function Caller(words: Words, f: Frame): Frame
    requires HasCaller(words, f)
  {
    Frame(words[Plus(f.frame, 8)], words[f.frame])
  }

  /** The walk without bound and without the check for repeats. It ends because frame pointers increase. */
  function Walk(words: Words, start: Frame): (frames: seq<Frame>)
    ensures Chain(words, start, frames)
    ensures !HasCaller(words, frames[|frames| - 1])
    decreases ADDRESS_SPACE - start.frame
  {
    if HasCaller(words, start) then
      var rest := Walk(words, Caller(words, start));
      [start] + rest
    else [start]
  }

  /** Every chain of callers is an initial part of the walk: the walk is the longest one. */
  lemma {:induction false} WalkIsLongest(words: Words, start: Frame, frames: seq<Frame>)
    requires Chain(words, start, frames)
    ensures frames <= Walk(words, start)
    decreases |frames|
  {
    if |frames| > 1 {
      var rest := frames[1..];
      assert CalledFrom(words, frames[0], frames[1]);
      forall i | 0 <= i < |rest| - 1 ensures CalledFrom(words, rest[i], rest[i + 1]) {
        assert CalledFrom(words, frames[i + 1], frames[i + 2]);
      }
      WalkIsLongest(words, frames[1], rest);
      assert Walk(words, start) == [start] + Walk(words, frames[1]);
      assert frames == [start] + rest;
    }
  }

  /** Frame pointers strictly increase along a chain, so none repeats. */
  lemma {:induction false} Increasing(words: Words, start: Frame, frames: seq<Frame>, i: nat, j: nat)
    requires Chain(words, start, frames) && i < j < |frames|
    ensures frames[i].frame < frames[j].frame
  {
    assert CalledFrom(words, frames[j - 1], frames[j]);
    if i < j - 1 {
      Increasing(words, start, frames, i, j - 1);
    }
  }

  /**
   * The walk as the debugger performs it: the longest chain of callers of at most 64 frames. The check for a
   * frame seen before never finds one.
   */
  method Backtrace(words: Words, start: Frame) returns (frames: seq<Frame>)
    ensures Chain(words, start, frames) && |frames| <= 64
    ensures forall c | Chain(words, start, c) && |c| <= 64 :: c <= frames
    ensures |frames| < 64 ==> frames == Walk(words, start)
    ensures forall i, j | 0 <= i < j < |frames| :: frames[i].frame < frames[j].frame
  {
    frames := [];
    var pc, frame := start.pc, start.frame;
    var seen: set<Address> := {};
    var depth := 0;
    ghost var ended := false;
    while depth < LIMIT
      invariant 0 <= depth <= LIMIT && |frames| == depth && !ended
      invariant frames != [] ==> Chain(words, start, frames) && CalledFrom(words, frames[depth - 1], Frame(pc, frame))
      invariant frames == [] ==> Frame(pc, frame) == start
      invariant forall s | s in seen :: s < frame
    {
      frames := frames + [Frame(pc, frame)];
      assert frame !in seen;
      if frame == 0 || frame in seen {
        ended := true;
        break;
      }
      seen := seen + {frame};
      if Plus(frame, 8) !in words {
        ended := true;
        break;
      }
      pc := words[Plus(frame, 8)];
      if frame !in words {
        ended := true;
        break;
      }
      var next := words[frame];
      if next <= frame {
        ended := true;
        break;
      }
      frame := next;
      depth := depth + 1;
    }
    NothingLonger(words, start, frames, ended);
  }

  /** A chain that ends where there is no caller, or at the limit, is the longest within the limit. */
  lemma NothingLonger(words: Words, start: Frame, frames: seq<Frame>, ended: bool)
    requires Chain(words, start, frames)
    requires if ended then !HasCaller(words, frames[|frames| - 1]) else |frames| == LIMIT
    ensures forall c | Chain(words, start, c) && |c| <= LIMIT :: c <= frames
    ensures |frames| < LIMIT ==> frames == Walk(words, start)
    ensures forall i, j | 0 <= i < j < |frames| :: frames[i].frame < frames[j].frame
  {
    WalkIsLongest(words, start, frames);
    if ended {
      NoneLonger(words, start, frames);
    }
    forall c | Chain(words, start, c) && |c| <= LIMIT ensures c <= frames {
      WalkIsLongest(words, start, c);
    }
    forall i, j | 0 <= i < j < |frames| ensures frames[i].frame < frames[j].frame {
      Increasing(words, start, frames, i, j);
    }
  }

  /** A chain whose last frame has no caller is the whole walk. */
  lemma {:induction false} NoneLonger(words: Words, start: Frame, frames: seq<Frame>)
    requires Chain(words, start, frames) && !HasCaller(words, frames[|frames| - 1])
    ensures frames == Walk(words, start)
  {
    WalkIsLongest(words, start, frames);
    var whole := Walk(words, start);
    forall i | 0 <= i < |whole| - 1 ensures HasCaller(words, whole[i]) {
      assert CalledFrom(words, whole[i], whole[i + 1]);
    }
    assert whole[|frames| - 1] == frames[|frames| - 1];
  }

  /** Two frames on a stack, the outer one without a frame above it, and the stack of a thread without any. */
  lemma WalkByExample()
    ensures var words: Words := map[0x1000 := 0x2000, 0x1008 := 0x401234, 0x2000 := 0, 0x2008 := 0x405678];
            && Walk(words, Frame(0x400100, 0x1000)) == [Frame(0x400100, 0x1000), Frame(0x401234, 0x2000)]
            && Walk(words, Frame(0x400100, 0)) == [Frame(0x400100, 0)]
  {
    var words: Words := map[0x1000 := 0x2000, 0x1008 := 0x401234, 0x2000 := 0, 0x2008 := 0x405678];
    assert !HasCaller(words, Frame(0x401234, 0x2000));
    assert Walk(words, Frame(0x401234, 0x2000)) == [Frame(0x401234, 0x2000)];
    assert HasCaller(words, Frame(0x400100, 0x1000));
  }
}
