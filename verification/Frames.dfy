/** The frame layout: saved bounds, load buffer and scratch words never overlap. */
module Frames {
  import opened Words
  import opened Opcodes
  import opened Ebpf
  import opened Cbpf
  import opened Translation
  import opened PacketLoads

  /** Frame position of scratch word `k`, 4k+64 bytes below the top. */
  function ScratchAt(k: nat): int { STACK_SIZE - (4 * k + 64) }

  lemma ScratchOffset(k: Word32)
    requires k < BPF_MEMWORDS
    ensures STACK_SIZE + ScratchOff(k) == ScratchAt(k)
  {
  }

  predicate HoldsScratch(bigEndian: bool, frame: Frame, mem: Scratch) {
    forall k | 0 <= k < BPF_MEMWORDS :: LoadFrame(bigEndian, frame, ScratchAt(k), 4) == mem[k]
  }

  /** The registers and the frame stand for the classic machine's A, X and M. */
  predicate Represents(env: Env, s: CState, t: State) {
    t.regs[0] == s.a && t.regs[7] == s.x && t.regs[10] == env.fp &&
    SavedBounds(env, t.frame) && HoldsScratch(env.bigEndian, t.frame, s.mem)
  }

  /** Loading a stored value gives it back. */
  lemma LoadStored(bigEndian: bool, frame: Frame, at: int, v: nat, size: nat)
    requires 0 <= at && at + size <= STACK_SIZE && v < Pow256(size)
    ensures LoadFrame(bigEndian, StoreFrame(frame, at, Encode(bigEndian, v, size)), at, size) == v
  {
    hide Encode, Decode;
    var bytes := Encode(bigEndian, v, size);
    assert StoreFrame(frame, at, bytes)[at..at + size] == bytes;
    DecodeEncode(bigEndian, v, size);
  }

  /** A store leaves every disjoint part of the frame as it was. */
  lemma LoadElsewhere(bigEndian: bool, frame: Frame, at: int, bytes: seq<Byte>, at': int, size: nat)
    requires 0 <= at && at + |bytes| <= STACK_SIZE && 0 <= at' && at' + size <= STACK_SIZE
    requires at' + size <= at || at + |bytes| <= at'
    ensures LoadFrame(bigEndian, StoreFrame(frame, at, bytes), at', size) == LoadFrame(bigEndian, frame, at', size)
  {
    hide Decode;
    assert StoreFrame(frame, at, bytes)[at'..at' + size] == frame[at'..at' + size];
  }

  /** A change confined to the load buffer leaves what lies below or above it as it was. */
  lemma LoadOutsideBuffer(bigEndian: bool, frame: Frame, frame': Frame, at: int, size: nat)
    requires SameButBuffer(frame, frame') && 0 <= at && at + size <= STACK_SIZE
    requires at + size <= STACK_SIZE + BUFFER_SLOT || STACK_SIZE + BUFFER_SLOT + 4 <= at
    ensures LoadFrame(bigEndian, frame', at, size) == LoadFrame(bigEndian, frame, at, size)
  {
    hide Decode;
    var low, high := STACK_SIZE + BUFFER_SLOT, STACK_SIZE + BUFFER_SLOT + 4;
    if at + size <= low {
      SliceOfPrefix(frame, low, at, at + size);
      SliceOfPrefix(frame', low, at, at + size);
    } else {
      SliceOfSuffix(frame, high, at, at + size);
      SliceOfSuffix(frame', high, at, at + size);
    }
  }

  lemma SliceOfPrefix<T>(s: seq<T>, low: int, i: int, j: int)
    requires 0 <= i <= j <= low <= |s|
    ensures s[i..j] == s[..low][i..j]
  {
  }

  lemma SliceOfSuffix<T>(s: seq<T>, high: int, i: int, j: int)
    requires 0 <= high <= i <= j <= |s|
    ensures s[i..j] == s[high..][i - high..j - high]
  {
  }

  /** Filling the load buffer touches neither the saved bounds nor the scratch words. */
  lemma BufferIsSeparate(env: Env, frame: Frame, frame': Frame, mem: Scratch)
    requires SameButBuffer(frame, frame')
    requires SavedBounds(env, frame) && HoldsScratch(env.bigEndian, frame, mem)
    ensures SavedBounds(env, frame') && HoldsScratch(env.bigEndian, frame', mem)
  {
    hide LoadFrame, SameButBuffer;
    LoadOutsideBuffer(env.bigEndian, frame, frame', STACK_SIZE + DATA_SLOT, 8);
    LoadOutsideBuffer(env.bigEndian, frame, frame', STACK_SIZE + DATA_END_SLOT, 8);
    forall k | 0 <= k < BPF_MEMWORDS
      ensures LoadFrame(env.bigEndian, frame', ScratchAt(k), 4) == mem[k]
    {
      LoadOutsideBuffer(env.bigEndian, frame, frame', ScratchAt(k), 4);
    }
  }

  /** A scratch store changes that word and nothing else the filter relies on. */
  lemma ScratchStore(env: Env, frame: Frame, mem: Scratch, k: nat, v: Word32)
    requires k < BPF_MEMWORDS
    requires SavedBounds(env, frame) && HoldsScratch(env.bigEndian, frame, mem)
    ensures var frame' := StoreFrame(frame, ScratchAt(k), Encode(env.bigEndian, v, 4));
      SavedBounds(env, frame') && HoldsScratch(env.bigEndian, frame', mem[k := v])
  {
    hide LoadFrame, StoreFrame, Encode;
    var bytes := Encode(env.bigEndian, v, 4);
    Pow256Small();
    LoadStored(env.bigEndian, frame, ScratchAt(k), v, 4);
    LoadElsewhere(env.bigEndian, frame, ScratchAt(k), bytes, STACK_SIZE + DATA_SLOT, 8);
    LoadElsewhere(env.bigEndian, frame, ScratchAt(k), bytes, STACK_SIZE + DATA_END_SLOT, 8);
    forall j | 0 <= j < BPF_MEMWORDS && j != k
      ensures LoadFrame(env.bigEndian, StoreFrame(frame, ScratchAt(k), bytes), ScratchAt(j), 4) == mem[j]
    {
      LoadElsewhere(env.bigEndian, frame, ScratchAt(k), bytes, ScratchAt(j), 4);
    }
  }

  /** What the scratch words of a frame hold. */
  function ScratchOf(bigEndian: bool, frame: Frame): Scratch {
    seq<Word32>(BPF_MEMWORDS, k requires 0 <= k < BPF_MEMWORDS =>
      ToU32(LoadFrame(bigEndian, frame, ScratchAt(k), 4)))
  }

  lemma ScratchOfHolds(bigEndian: bool, frame: Frame)
    ensures HoldsScratch(bigEndian, frame, ScratchOf(bigEndian, frame))
  {
    hide Decode;
    forall k | 0 <= k < BPF_MEMWORDS
      ensures LoadFrame(bigEndian, frame, ScratchAt(k), 4) == ScratchOf(bigEndian, frame)[k]
    {
      DecodeBound(bigEndian, frame[ScratchAt(k)..ScratchAt(k) + 4]);
      Pow256Small();
    }
  }

  /** The prologue's two stores save the packet bounds and leave the scratch words alone. */
  lemma BoundsSaved(env: Env, frame: Frame, mem: Scratch)
    requires HoldsScratch(env.bigEndian, frame, mem)
    ensures var saved := StoreFrame(StoreFrame(frame, STACK_SIZE + DATA_SLOT, Encode(env.bigEndian, env.data, 8)),
                                    STACK_SIZE + DATA_END_SLOT, Encode(env.bigEndian, env.dataEnd, 8));
      SavedBounds(env, saved) && HoldsScratch(env.bigEndian, saved, mem)
  {
    hide LoadFrame, StoreFrame, Encode;
    var be, at, at' := env.bigEndian, STACK_SIZE + DATA_SLOT, STACK_SIZE + DATA_END_SLOT;
    var low, high := Encode(be, env.data, 8), Encode(be, env.dataEnd, 8);
    var frame1 := StoreFrame(frame, at, low);
    Pow256Small();
    LoadStored(be, frame, at, env.data, 8);
    LoadStored(be, frame1, at', env.dataEnd, 8);
    LoadElsewhere(be, frame1, at', high, at, 8);
    forall k | 0 <= k < BPF_MEMWORDS
      ensures LoadFrame(be, StoreFrame(frame1, at', high), ScratchAt(k), 4) == mem[k]
    {
      LoadElsewhere(be, frame1, at', high, ScratchAt(k), 4);
      LoadElsewhere(be, frame, at, low, ScratchAt(k), 4);
    }
  }
}
