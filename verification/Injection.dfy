/** The injection loop: stubs are replaced one at a time at a running offset, which amounts to replacing them
    all at once. */
module Injection {
  import opened Words
  import opened Opcodes
  import opened Ebpf
  import opened Rules
  import opened Splicer

  const STUB_ORIG_LEN := 7

  /** A stub of the original program and the filter that replaces it. */
  datatype Stub = Stub(pos: nat, filter: seq<BpfInsn>)

  function Delta(s: Stub): int { |s.filter| - STUB_ORIG_LEN }

  /** Stubs come in ascending order and do not overlap. */
  predicate Ascending(stubs: seq<Stub>) {
    forall a, b | 0 <= a < b < |stubs| :: stubs[a].pos + STUB_ORIG_LEN <= stubs[b].pos
  }

  predicate Within(stubs: seq<Stub>, len: int) {
    forall k | 0 <= k < |stubs| :: stubs[k].pos + STUB_ORIG_LEN <= len
  }

  /** The running offset after all of `stubs`. */
  function Shift(stubs: seq<Stub>): int {
    if stubs == [] then 0 else Shift(stubs[..|stubs| - 1]) + Delta(stubs[|stubs| - 1])
  }

  /** Where an original instruction or target ends up: behind every stub that starts before it. */
  function Image(stubs: seq<Stub>, j: int): int {
    if stubs == [] then j
    else Image(stubs[..|stubs| - 1], j) + if stubs[|stubs| - 1].pos < j then Delta(stubs[|stubs| - 1]) else 0
  }

  predicate InsideSome(stubs: seq<Stub>, j: int) {
    exists k :: 0 <= k < |stubs| && stubs[k].pos < j < stubs[k].pos + STUB_ORIG_LEN
  }

  /** An original instruction that no stub covers. */
  predicate Kept(stubs: seq<Stub>, j: int) {
    forall k | 0 <= k < |stubs| :: Outside(stubs[k].pos, STUB_ORIG_LEN, j)
  }

  function DropLast(stubs: seq<Stub>): seq<Stub>
    requires stubs != []
  {
    stubs[..|stubs| - 1]
  }

  /** Replacing the stubs one after the other at the running offset. */
  function InjectAll(code: seq<BpfInsn>, stubs: seq<Stub>): (r: seq<BpfInsn>)
    requires Ascending(stubs) && Within(stubs, |code|)
    ensures |r| == |code| + Shift(stubs)
  {
    if stubs == [] then code else
    var last := stubs[|stubs| - 1];
    ShiftBound(stubs);
    Inject(InjectAll(code, DropLast(stubs)), last.pos + Shift(DropLast(stubs)), STUB_ORIG_LEN, last.filter)
  }

  /** The running offset never takes a position below zero: earlier stubs occupied the room it gives back. */
  lemma ShiftBound(stubs: seq<Stub>)
    requires Ascending(stubs) && stubs != []
    ensures stubs[|stubs| - 1].pos + Shift(DropLast(stubs)) >= 0
    decreases |stubs|
  {
    if |stubs| > 1 {
      ShiftBound(DropLast(stubs));
    }
  }

  // ----- one replacement of all stubs -----

  /** `r` is `code` with every stub replaced at once: the filters stand at the images of their stubs, every other
      instruction at its own image, and every call among those leads to the image of its old target. */
  predicate Simultaneous(code: seq<BpfInsn>, stubs: seq<Stub>, r: seq<BpfInsn>) {
    |r| == |code| + Shift(stubs) &&
    (forall k | 0 <= k < |stubs| :: CodeAt(r, Image(stubs, stubs[k].pos), stubs[k].filter)) &&
    (forall j | 0 <= j < |code| && Kept(stubs, j) :: KeptAt(code, stubs, r, j))
  }

  predicate KeptAt(code: seq<BpfInsn>, stubs: seq<Stub>, r: seq<BpfInsn>, j: int)
    requires 0 <= j < |code|
  {
    var m := Image(stubs, j);
    0 <= m < |r| &&
    if CallsSubprog(code[j]) then
      r[m] == code[j].(imm := r[m].imm) && CallTarget(r, m) == Image(stubs, CallTarget(code, j))
    else r[m] == code[j]
  }

  /** What the splicer needs of the original program: kept calls lead neither to instruction 0, nor inside a stub,
      nor out of the program. */
  predicate CallsFit(code: seq<BpfInsn>, stubs: seq<Stub>) {
    forall j | 0 <= j < |code| && Kept(stubs, j) && CallsSubprog(code[j]) ::
      0 < CallTarget(code, j) <= |code| && !InsideSome(stubs, CallTarget(code, j))
  }

  predicate NoSubprogCalls(insns: seq<BpfInsn>) {
    forall p | 0 <= p < |insns| :: !CallsSubprog(insns[p])
  }

  function FilterSize(stubs: seq<Stub>): (n: nat)
  {
    if stubs == [] then 0 else FilterSize(DropLast(stubs)) + |stubs[|stubs| - 1].filter|
  }

  // ----- images -----

  /** Past all stubs, the image is shifted by the running offset. */
  lemma {:induction false} ImagePast(stubs: seq<Stub>, j: int)
    requires forall k | 0 <= k < |stubs| :: stubs[k].pos < j
    ensures Image(stubs, j) == j + Shift(stubs)
    decreases |stubs|
  {
    if stubs != [] {
      ImagePast(DropLast(stubs), j);
    }
  }

  predicate Nonempty(stubs: seq<Stub>) {
    forall k | 0 <= k < |stubs| :: |stubs[k].filter| > 0
  }

  /** Images keep the strict order of everything that is not inside a stub. */
  lemma {:induction false} ImageMonotone(stubs: seq<Stub>, i: int, j: int)
    requires Ascending(stubs) && Nonempty(stubs) && i < j && !InsideSome(stubs, i) && !InsideSome(stubs, j)
    ensures Image(stubs, i) < Image(stubs, j)
    decreases |stubs|
  {
    if stubs != [] {
      var init, last := DropLast(stubs), stubs[|stubs| - 1];
      NotInside(stubs, i);
      NotInside(stubs, j);
      if i <= last.pos < j {
        LastIsFree(stubs);
        if i < last.pos {
          ImageMonotone(init, i, last.pos);
        }
        ImagePast(init, last.pos);
        ImagePast(init, j);
      } else {
        ImageMonotone(init, i, j);
      }
    }
  }

  lemma NotInside(stubs: seq<Stub>, j: int)
    requires stubs != [] && !InsideSome(stubs, j)
    ensures !InsideSome(DropLast(stubs), j)
    ensures !StrictlyInside(stubs[|stubs| - 1].pos, STUB_ORIG_LEN, j)
  {
    var init := DropLast(stubs);
    forall k | 0 <= k < |init| ensures !StrictlyInside(init[k].pos, STUB_ORIG_LEN, j) {
      assert stubs[k] == init[k];
    }
  }

  lemma LastIsFree(stubs: seq<Stub>)
    requires Ascending(stubs) && stubs != []
    ensures !InsideSome(DropLast(stubs), stubs[|stubs| - 1].pos)
    ensures Ascending(DropLast(stubs))
  {
  }

  /** A filter in place lies before everything behind its stub. */
  lemma {:induction false} FilterBelow(stubs: seq<Stub>, k: int, j: int)
    requires Ascending(stubs) && 0 <= k < |stubs|
    requires stubs[|stubs| - 1].pos + STUB_ORIG_LEN <= j
    ensures Image(stubs, stubs[k].pos) + |stubs[k].filter| <= j + Shift(stubs)
    decreases |stubs|
  {
    var init, last := DropLast(stubs), stubs[|stubs| - 1];
    if k < |init| {
      assert init[k] == stubs[k];
      FilterBelow(init, k, last.pos);
    } else {
      ImagePast(init, last.pos);
    }
  }

  lemma {:induction false} ShiftSize(stubs: seq<Stub>)
    ensures Shift(stubs) <= FilterSize(stubs)
    decreases |stubs|
  {
    if stubs != [] {
      ShiftSize(DropLast(stubs));
    }
  }

  // ----- the loop's theorem -----

  /** What the original program, its stubs and the filters must satisfy. */
  predicate Suitable(code: seq<BpfInsn>, stubs: seq<Stub>) {
    Ascending(stubs) && Within(stubs, |code|) && Nonempty(stubs) && CallsFit(code, stubs) &&
    |code| + FilterSize(stubs) < TWO31 &&
    forall k | 0 <= k < |stubs| :: NoSubprogCalls(stubs[k].filter)
  }

  /** The state of the loop after `n` stubs: as if those had been replaced at once. */
  predicate Progress(code: seq<BpfInsn>, all: seq<Stub>, n: nat, r: seq<BpfInsn>)
    requires n <= |all|
  {
    var stubs := all[..n];
    |r| == |code| + Shift(stubs) &&
    (forall k | 0 <= k < n :: CodeAt(r, Image(stubs, stubs[k].pos), stubs[k].filter)) &&
    (forall j | 0 <= j < |code| && Kept(all, j) :: KeptAt(code, stubs, r, j))
  }

  lemma PrefixAscends(all: seq<Stub>, n: nat)
    requires Ascending(all) && n < |all|
    ensures Ascending(all[..n + 1]) && Ascending(all[..n])
    ensures forall k | 0 <= k < n :: all[..n][k].pos < all[n].pos
  {
  }

  lemma PrefixFacts(code: seq<BpfInsn>, all: seq<Stub>, n: nat)
    requires Suitable(code, all) && n < |all|
    ensures var init := all[..n];
      all[..n + 1] == init + [all[n]] && DropLast(all[..n + 1]) == init &&
      Ascending(all[..n + 1]) && Ascending(init) && 0 <= all[n].pos + Shift(init) &&
      |code| + Shift(init) + |all[n].filter| < TWO31 && forall k | 0 <= k < n :: init[k].pos < all[n].pos
  {
    hide CallsFit, NoSubprogCalls, Nonempty, Shift, FilterSize, Ascending, Within;
    var init, stubs := all[..n], all[..n + 1];
    PrefixAscends(all, n);
    assert DropLast(stubs) == init;
    assert stubs[|stubs| - 1] == all[n];
    FilterSizeStep(init, all[n]);
    ShiftBound(stubs);
    ShiftSize(init);
    FilterSizePrefix(all, n + 1);
  }

  lemma FilterSizeStep(init: seq<Stub>, last: Stub)
    ensures FilterSize(init + [last]) == FilterSize(init) + |last.filter|
  {
    assert DropLast(init + [last]) == init;
  }

  lemma {:induction false} FilterSizePrefix(all: seq<Stub>, n: nat)
    requires n <= |all|
    ensures FilterSize(all[..n]) <= FilterSize(all)
    decreases |all|
  {
    if n < |all| {
      assert DropLast(all)[..n] == all[..n];
      FilterSizePrefix(DropLast(all), n);
    } else {
      assert all[..n] == all;
    }
  }

  /** The filters already in place stay in place. */
  lemma FilterStays(code: seq<BpfInsn>, all: seq<Stub>, n: nat, p: seq<BpfInsn>, k: nat)
    requires Suitable(code, all) && k < n < |all| && Progress(code, all, n, p)
    requires all[n].pos + Shift(all[..n]) + STUB_ORIG_LEN <= |p| && 0 <= all[n].pos + Shift(all[..n])
    ensures var stubs, last := all[..n + 1], all[n];
      var r := Inject(p, last.pos + Shift(all[..n]), STUB_ORIG_LEN, last.filter);
      CodeAt(r, Image(stubs, stubs[k].pos), stubs[k].filter)
  {
    hide IsSubprogCall, CallsSubprog, Inject, Image, Shift, CodeAt, KeptAt, CallsFit, Within, FilterSize, Nonempty;
    PrefixFacts(code, all, n);
    var init, stubs, last := all[..n], all[..n + 1], all[n];
    var at, f := Image(init, init[k].pos), init[k].filter;
    var cur := last.pos + Shift(init);
    var r := Inject(p, cur, STUB_ORIG_LEN, last.filter);
    FilterBelow(init, k, last.pos);
    ImageStep(init, last, init[k].pos);
    assert stubs[k] == init[k] && f == all[k].filter;
    Fetch(p, at, f);
    forall q | 0 <= q < |f| ensures r[at + q] == f[q] {
      InjectAt(p, cur, STUB_ORIG_LEN, last.filter, at + q);
      assert !CallsSubprog(f[q]);
      SubprogCallShape(f[q]);
    }
    assert r[at..at + |f|] == f;
    PlacedAt(r, at, f);
  }

  lemma PlacedAt(r: seq<BpfInsn>, at: int, f: seq<BpfInsn>)
    requires 0 <= at && at + |f| <= |r| && r[at..at + |f|] == f
    ensures CodeAt(r, at, f)
  {
  }

  lemma ImageStep(init: seq<Stub>, last: Stub, j: int)
    ensures Image(init + [last], j) == Image(init, j) + if last.pos < j then Delta(last) else 0
    ensures Shift(init + [last]) == Shift(init) + Delta(last)
  {
    assert (init + [last])[..|init|] == init;
  }

  /** Images under the first `n` stubs, seen from the stub that is replaced next. */
  lemma ImageAroundNext(code: seq<BpfInsn>, all: seq<Stub>, n: nat, j: int)
    requires Suitable(code, all) && n < |all| && !InsideSome(all, j) && 0 <= j <= |code|
    ensures var init, last := all[..n], all[n];
      var cur := last.pos + Shift(init);
      0 <= Image(init, j) <= |code| + Shift(init) && (j > 0 ==> Image(init, j) > 0) &&
      (j == last.pos ==> Image(init, j) == cur) && (j < last.pos ==> Image(init, j) < cur) &&
      (j > last.pos ==> Image(init, j) >= cur + STUB_ORIG_LEN) &&
      Image(all[..n + 1], j) == TargetImage(cur, Delta(last), Image(init, j))
  {
    hide Image, Shift;
    PrefixFacts(code, all, n);
    var init, last := all[..n], all[n];
    ImageStep(init, last, j);
    PrefixFree(all, n, j);
    PrefixFree(all, n, 0);
    ImageOfZero(init);
    ImagePast(init, last.pos);
    if j > 0 {
      ImageMonotone(init, 0, j);
    }
    if j < last.pos {
      PrefixFree(all, n, last.pos);
      ImageMonotone(init, j, last.pos);
    } else {
      ImagePast(init, j);
    }
  }

  lemma PrefixFree(all: seq<Stub>, n: nat, j: int)
    requires Ascending(all) && n < |all| && (!InsideSome(all, j) || j == all[n].pos || j == 0)
    ensures !InsideSome(all[..n], j)
    ensures !InsideSome(all, j) ==> !StrictlyInside(all[n].pos, STUB_ORIG_LEN, j)
  {
    forall k | 0 <= k < n ensures !StrictlyInside(all[..n][k].pos, STUB_ORIG_LEN, j) {
      assert all[..n][k] == all[k];
    }
  }

  lemma {:induction false} ImageOfZero(stubs: seq<Stub>)
    ensures Image(stubs, 0) == 0
    decreases |stubs|
  {
    if stubs != [] {
      ImageOfZero(DropLast(stubs));
    }
  }

  lemma KeptIsFree(all: seq<Stub>, j: int)
    requires Kept(all, j)
    ensures !InsideSome(all, j)
  {
  }

  /** A kept instruction follows the next replacement to its next image. */
  lemma KeptStays(code: seq<BpfInsn>, all: seq<Stub>, n: nat, p: seq<BpfInsn>, j: nat)
    requires Suitable(code, all) && n < |all| && Progress(code, all, n, p) && j < |code| && Kept(all, j)
    requires all[n].pos + Shift(all[..n]) + STUB_ORIG_LEN <= |p| && 0 <= all[n].pos + Shift(all[..n])
    ensures var last := all[n];
      KeptAt(code, all[..n + 1], Inject(p, last.pos + Shift(all[..n]), STUB_ORIG_LEN, last.filter), j)
  {
    hide CallsSubprog, Inject, Image, Shift, Ascending, Within, Nonempty;
    var init, last := all[..n], all[n];
    PrefixFacts(code, all, n);
    KeptIsFree(all, j);
    ImageAroundNext(code, all, n, j);
    var q, cur := Image(init, j), last.pos + Shift(init);
    assert KeptAt(code, init, p, j);
    assert Outside(last.pos, STUB_ORIG_LEN, j);
    InjectKeepsTheRest(p, cur, STUB_ORIG_LEN, last.filter, q);
    if CallsSubprog(code[j]) {
      var target := CallTarget(code, j);
      ImageAroundNext(code, all, n, target);
      SameKind(code[j], p[q]);
      CallRelocatedExactly(p, cur, STUB_ORIG_LEN, last.filter, q);
    }
  }

  lemma SameKind(a: BpfInsn, b: BpfInsn)
    requires b == a.(imm := b.imm)
    ensures CallsSubprog(a) == CallsSubprog(b)
  {
  }

  /** A filter takes exactly the room of its stub's seven instructions. */
  lemma FilterFillsStub(code: seq<BpfInsn>, stubs: seq<Stub>, k: nat)
    requires Suitable(code, stubs) && k < |stubs|
    ensures Image(stubs, stubs[k].pos + 7) == Image(stubs, stubs[k].pos) + |stubs[k].filter|
    decreases |stubs|
  {
    hide CallsFit, NoSubprogCalls;
    AroundStub(stubs, k);
  }

  lemma {:induction false} AroundStub(stubs: seq<Stub>, k: nat)
    requires Ascending(stubs) && k < |stubs|
    ensures Image(stubs, stubs[k].pos + 7) == Image(stubs, stubs[k].pos) + |stubs[k].filter|
    decreases |stubs|
  {
    var init, last := DropLast(stubs), stubs[|stubs| - 1];
    if k < |init| {
      assert init[k] == stubs[k];
      AroundStub(init, k);
    } else {
      ImagePast(init, last.pos);
      ImagePast(init, last.pos + 7);
    }
  }

  /** One iteration of the loop. */
  lemma ProgressStep(code: seq<BpfInsn>, all: seq<Stub>, n: nat, p: seq<BpfInsn>)
    requires Suitable(code, all) && n < |all| && Progress(code, all, n, p)
    ensures var cur := all[n].pos + Shift(all[..n]);
      0 <= cur && cur + STUB_ORIG_LEN <= |p| &&
      Progress(code, all, n + 1, Inject(p, cur, STUB_ORIG_LEN, all[n].filter))
  {
    hide CallsSubprog, Inject, Image, Shift, KeptAt;
    var init, stubs, last := all[..n], all[..n + 1], all[n];
    PrefixFacts(code, all, n);
    ImageStep(init, last, last.pos);
    ImagePast(init, last.pos);
    var cur := last.pos + Shift(init);
    var r := Inject(p, cur, STUB_ORIG_LEN, last.filter);
    InjectKeepsTheRest(p, cur, STUB_ORIG_LEN, last.filter, |p|);
    forall k | 0 <= k < n + 1 ensures CodeAt(r, Image(stubs, stubs[k].pos), stubs[k].filter) {
      if k < n {
        FilterStays(code, all, n, p, k);
      }
    }
    forall j | 0 <= j < |code| && Kept(all, j) ensures KeptAt(code, stubs, r, j) {
      KeptStays(code, all, n, p, j);
    }
  }

  lemma InjectAllStep(code: seq<BpfInsn>, all: seq<Stub>, n: nat)
    requires Suitable(code, all) && n < |all|
    ensures Ascending(all[..n]) && Within(all[..n], |code|) && Ascending(all[..n + 1]) && Within(all[..n + 1], |code|)
    ensures var p, cur := InjectAll(code, all[..n]), all[n].pos + Shift(all[..n]);
      0 <= cur && cur + STUB_ORIG_LEN <= |p| &&
      InjectAll(code, all[..n + 1]) == Inject(p, cur, STUB_ORIG_LEN, all[n].filter)
  {
    hide Inject, CallsFit, NoSubprogCalls;
    PrefixFacts(code, all, n);
  }

  lemma {:induction false} ProgressAll(code: seq<BpfInsn>, all: seq<Stub>, n: nat)
    requires Suitable(code, all) && n <= |all|
    ensures Ascending(all[..n]) && Within(all[..n], |code|) && Progress(code, all, n, InjectAll(code, all[..n]))
    decreases n
  {
    hide Inject, Image, KeptAt, Shift, InjectAll, Progress, Suitable, Ascending, Within;
    NothingReplaced(code, all);
    if n > 0 {
      InjectAllStep(code, all, n - 1);
      ProgressAll(code, all, n - 1);
      ProgressStep(code, all, n - 1, InjectAll(code, all[..n - 1]));
    }
  }

  lemma NothingReplaced(code: seq<BpfInsn>, all: seq<Stub>)
    ensures Ascending(all[..0]) && Within(all[..0], |code|) && Progress(code, all, 0, InjectAll(code, all[..0]))
  {
    hide CallsSubprog;
    assert all[..0] == [];
  }

  /** Replacing the stubs one at a time at the running offset is one simultaneous replacement of all of them. */
  lemma SequentialIsSimultaneous(code: seq<BpfInsn>, stubs: seq<Stub>)
    requires Suitable(code, stubs)
    ensures Simultaneous(code, stubs, InjectAll(code, stubs))
  {
    hide Inject, Image, KeptAt, Shift, InjectAll;
    ProgressAll(code, stubs, |stubs|);
    assert stubs[..|stubs|] == stubs;
  }

  // ----- ordinary jumps -----

  /** By how much the stubs that a jump from `j` to `target` leaps over grow. */
  function Crossed(stubs: seq<Stub>, j: int, target: int): int {
    if stubs == [] then 0 else
    var last := stubs[|stubs| - 1];
    Crossed(DropLast(stubs), j, target) +
    (if last.pos < target then Delta(last) else 0) - (if last.pos < j then Delta(last) else 0)
  }

  predicate SameSide(stubs: seq<Stub>, j: int, target: int) {
    forall k | 0 <= k < |stubs| :: stubs[k].pos < j <==> stubs[k].pos < target
  }

  lemma {:induction false} CrossedIsStretch(stubs: seq<Stub>, j: int, target: int)
    ensures Image(stubs, target) - Image(stubs, j) == target - j + Crossed(stubs, j, target)
    ensures SameSide(stubs, j, target) ==> Crossed(stubs, j, target) == 0
    decreases |stubs|
  {
    if stubs != [] {
      CrossedIsStretch(DropLast(stubs), j, target);
      if SameSide(stubs, j, target) {
        forall k | 0 <= k < |DropLast(stubs)|
          ensures DropLast(stubs)[k].pos < j <==> DropLast(stubs)[k].pos < target
        {
          assert DropLast(stubs)[k] == stubs[k];
        }
      }
    }
  }

  /** After the whole loop a kept jump, which is never adjusted, lands on the image of its target exactly when the
      stubs it leaps over grow by nothing in all; it does if source and target lie on the same side of every stub. */
  lemma JumpKeptThroughAll(code: seq<BpfInsn>, stubs: seq<Stub>, j: nat)
    requires Suitable(code, stubs) && j < |code| && Kept(stubs, j) && IsJump(code[j])
    ensures var r, m, target := InjectAll(code, stubs), Image(stubs, j), j + 1 + code[j].off;
      0 <= m < |r| && r[m] == code[j] &&
      (m + 1 + r[m].off == Image(stubs, target) <==> Crossed(stubs, j, target) == 0) &&
      (SameSide(stubs, j, target) ==> m + 1 + r[m].off == Image(stubs, target))
  {
    hide InjectAll, Image, Shift, Crossed, CodeAt, SameSide;
    SequentialIsSimultaneous(code, stubs);
    assert KeptAt(code, stubs, InjectAll(code, stubs), j);
    CrossedIsStretch(stubs, j, j + 1 + code[j].off);
  }

  // ----- the replacement is determined -----

  /** Every position of the result is in a filter or the image of a kept instruction. */
  lemma {:induction false} Covered(len: nat, stubs: seq<Stub>, p: int) returns (k: int, j: int)
    requires Ascending(stubs) && Within(stubs, len) && Nonempty(stubs) && 0 <= p < len + Shift(stubs)
    ensures -1 <= k < |stubs|
    ensures k >= 0 ==> Image(stubs, stubs[k].pos) <= p < Image(stubs, stubs[k].pos) + |stubs[k].filter|
    ensures k == -1 ==> 0 <= j < len && Kept(stubs, j) && Image(stubs, j) == p
    decreases |stubs|
  {
    hide Image, Shift, Kept;
    if stubs == [] {
      k, j := -1, p;
      NoStubs(p);
    } else {
      var init, last := DropLast(stubs), stubs[|stubs| - 1];
      var cur := last.pos + Shift(init);
      assert stubs == init + [last];
      LastIsFree(stubs);
      ShiftBound(stubs);
      ImagePast(init, last.pos);
      ImageStep(init, last, last.pos);
      if cur <= p < cur + |last.filter| {
        k, j := |init|, 0;
      } else {
        k, j := Covered(len, init, if p < cur then p else p - Delta(last));
        if k >= 0 {
          assert stubs[k] == init[k];
          FilterBelow(init, k, last.pos);
          ImageStep(init, last, init[k].pos);
        } else {
          ImageStep(init, last, j);
          KeptApart(init, last, j);
          KeptIsFree(init, j);
          if j < last.pos {
            ImageMonotone(init, j, last.pos);
          } else {
            ImagePast(init, j);
          }
        }
      }
    }
  }

  lemma NoStubs(j: int)
    ensures Image([], j) == j && Shift([]) == 0 && Kept([], j)
  {
  }

  lemma KeptApart(init: seq<Stub>, last: Stub, j: int)
    requires Kept(init, j)
    ensures Outside(last.pos, STUB_ORIG_LEN, j) ==> Kept(init + [last], j)
  {
    if Outside(last.pos, STUB_ORIG_LEN, j) {
      forall k | 0 <= k < |init + [last]| ensures Outside((init + [last])[k].pos, STUB_ORIG_LEN, j) {
        if k < |init| {
          assert Outside(init[k].pos, STUB_ORIG_LEN, j);
        }
      }
    }
  }

  /** Only one program is the simultaneous replacement. */
  lemma SimultaneousUnique(code: seq<BpfInsn>, stubs: seq<Stub>, r: seq<BpfInsn>, r': seq<BpfInsn>)
    requires Ascending(stubs) && Within(stubs, |code|) && Nonempty(stubs)
    requires Simultaneous(code, stubs, r) && Simultaneous(code, stubs, r')
    ensures r == r'
  {
    hide CallsSubprog, Image, Shift, Ascending, Within;
    forall p | 0 <= p < |r| ensures r[p] == r'[p] {
      var k, j := Covered(|code|, stubs, p);
      if k >= 0 {
        Fetch(r, Image(stubs, stubs[k].pos), stubs[k].filter);
        Fetch(r', Image(stubs, stubs[k].pos), stubs[k].filter);
      } else {
        assert KeptAt(code, stubs, r, j) && KeptAt(code, stubs, r', j);
      }
    }
  }

  // ----- the loop -----

  /** One record of the program's function information: where the function starts and, if its type is a function
      with a name, that name. */
  datatype FuncName = Unnamed | Named(name: string)
  datatype FuncInfo = FuncInfo(insnOff: Word32, func: FuncName)

  const FUNC_PREFIX := "filter_pcap_ebpf_l"

  predicate NamesStub(name: string) { FUNC_PREFIX <= name }

  /** The character after the prefix chooses the filter; a name that ends there reads its terminator. */
  predicate NamesL3(name: string) { |name| > |FUNC_PREFIX| && name[|FUNC_PREFIX|] == '3' }

  predicate IsStub(info: FuncInfo) { info.func.Named? && NamesStub(info.func.name) }

  predicate IsL3(info: FuncInfo)
    requires IsStub(info)
  {
    NamesL3(info.func.name)
  }

  function StubsOf(infos: seq<FuncInfo>, l2: seq<BpfInsn>, l3: seq<BpfInsn>): seq<Stub> {
    if infos == [] then [] else
    var rest, info := StubsOf(infos[..|infos| - 1], l2, l3), infos[|infos| - 1];
    if IsStub(info) then rest + [Stub(info.insnOff, if IsL3(info) then l3 else l2)] else rest
  }

  // ----- which records are stubs, by their names -----

  lemma NameDecides(rest: string)
    ensures NamesStub("filter_pcap_ebpf_l" + rest)
    ensures NamesL3("filter_pcap_ebpf_l" + rest) <==> "3" <= rest
  {
  }

  /** A name that starts with "filter_pcap_ebpf_l" makes one stub, with the L3 filter if a 3 comes next and the L2
      filter otherwise. */
  lemma StubByName(off: Word32, rest: string, l2: seq<BpfInsn>, l3: seq<BpfInsn>)
    ensures StubsOf([FuncInfo(off, Named("filter_pcap_ebpf_l" + rest))], l2, l3) ==
      [Stub(off, if "3" <= rest then l3 else l2)]
  {
    NameDecides(rest);
    var infos := [FuncInfo(off, Named("filter_pcap_ebpf_l" + rest))];
    assert infos[..|infos| - 1] == [];
  }

  /** Any other record makes none. */
  lemma NoStubByName(info: FuncInfo, l2: seq<BpfInsn>, l3: seq<BpfInsn>)
    requires info.func.Named? ==> !("filter_pcap_ebpf_l" <= info.func.name)
    ensures StubsOf([info], l2, l3) == []
  {
    assert [info][..|[info]| - 1] == [];
  }

  /** Each record makes its stubs independently of the others. */
  lemma {:induction false} StubsOfConcat(a: seq<FuncInfo>, b: seq<FuncInfo>, l2: seq<BpfInsn>, l3: seq<BpfInsn>)
    ensures StubsOf(a + b, l2, l3) == StubsOf(a, l2, l3) + StubsOf(b, l2, l3)
    decreases |b|
  {
    hide IsStub, IsL3;
    if b == [] {
      assert a + b == a;
    } else {
      assert (a + b)[..|a + b| - 1] == a + b[..|b| - 1];
      StubsOfConcat(a, b[..|b| - 1], l2, l3);
    }
  }

  /** The load options whose function and line information the loop drops. */
  class LoadOpts {
    var funcInfo: seq<FuncInfo>
    var lineInfoCnt: nat

    constructor (infos: seq<FuncInfo>, lines: nat)
      ensures funcInfo == infos && lineInfoCnt == lines
    {
      funcInfo, lineInfoCnt := infos, lines;
    }
  }

  lemma {:induction false} StubsOfPrefix(infos: seq<FuncInfo>, l2: seq<BpfInsn>, l3: seq<BpfInsn>, i: nat)
    requires i <= |infos|
    ensures StubsOf(infos[..i], l2, l3) <= StubsOf(infos, l2, l3)
    decreases |infos|
  {
    if i < |infos| {
      assert infos[..|infos| - 1][..i] == infos[..i];
      StubsOfPrefix(infos[..|infos| - 1], l2, l3, i);
    } else {
      assert infos[..i] == infos;
    }
  }

  /** What the stubs up to record `i` become with that record. */
  lemma StubsOfStep(infos: seq<FuncInfo>, l2: seq<BpfInsn>, l3: seq<BpfInsn>, i: nat)
    requires i < |infos| && Ascending(StubsOf(infos, l2, l3))
    ensures var done, upTo, all := StubsOf(infos[..i], l2, l3), StubsOf(infos[..i + 1], l2, l3), StubsOf(infos, l2, l3);
      upTo == (if IsStub(infos[i]) then done + [Stub(infos[i].insnOff, if IsL3(infos[i]) then l3 else l2)] else done) &&
      done <= all && upTo <= all && Ascending(upTo) && (|upTo| > |done| ==> |done| < |all| && all[|done|] == upTo[|done|])
  {
    assert infos[..i + 1][..i] == infos[..i];
    StubsOfPrefix(infos, l2, l3, i + 1);
    var upTo, all := StubsOf(infos[..i + 1], l2, l3), StubsOf(infos, l2, l3);
    assert upTo == all[..|upTo|];
  }

  /** One call of the splicer, at the running offset. */
  method InjectStub(prog: BpfProgram, insnOff: Word32, offset: int, insns: seq<BpfInsn>,
                    ghost code: seq<BpfInsn>, ghost done: seq<Stub>)
    returns (ret: int)
    requires Ascending(done + [Stub(insnOff, insns)]) && Ascending(done) && Within(done, |code|)
    requires prog.insns == InjectAll(code, done) && offset == Shift(done) && offset < TWO64 / 2
    modifies prog
    ensures if insnOff + STUB_ORIG_LEN <= |code| then
        Within(done + [Stub(insnOff, insns)], |code|) && ret == 0 &&
        prog.insns == InjectAll(code, done + [Stub(insnOff, insns)])
      else ret == -EINVAL && prog.insns == old(prog.insns)
  {
    hide Inject, Ascending;
    ghost var upTo := done + [Stub(insnOff, insns)];
    assert DropLast(upTo) == done;
    ShiftBound(upTo);
    U64Same(insnOff + offset);
    U64Same(insnOff + offset + STUB_ORIG_LEN);
    var currentPos := ToU64(insnOff + offset);
    ret := InjectEbpfFilter(prog, currentPos, STUB_ORIG_LEN, insns);
  }

  /** The stubs before the first one that does not lie inside the program. */
  function Fitting(stubs: seq<Stub>, len: int): (r: seq<Stub>)
    requires Ascending(stubs)
    ensures r <= stubs && Ascending(r) && Within(r, len) && (Within(stubs, len) ==> r == stubs)
    ensures |r| < |stubs| ==> stubs[|r|].pos + STUB_ORIG_LEN > len
  {
    if stubs == [] || stubs[|stubs| - 1].pos + STUB_ORIG_LEN <= len then stubs else Fitting(DropLast(stubs), len)
  }

  lemma FittingIs(stubs: seq<Stub>, len: int, done: seq<Stub>)
    requires Ascending(stubs) && done <= stubs && Within(done, len)
    requires |done| < |stubs| && stubs[|done|].pos + STUB_ORIG_LEN > len
    ensures Fitting(stubs, len) == done && !Within(stubs, len)
  {
    hide Fitting, Ascending;
    var r := Fitting(stubs, len);
    assert |r| == |done|;
    assert r == stubs[..|r|];
  }

  /** custom_prepare_load_skbtracer_prog: replaces the stubs one after the other up to the first one that does not
      lie inside the program. Succeeds exactly when there is no such stub, and then drops the stale function and
      line information. */
  method CustomPrepareLoad(prog: BpfProgram, opts: LoadOpts, l2: seq<BpfInsn>, l3: seq<BpfInsn>) returns (ret: int)
    requires Ascending(StubsOf(opts.funcInfo, l2, l3))
    requires |opts.funcInfo| < TWO31 && |l2| < TWO31 && |l3| < TWO31
    modifies prog, opts
    ensures var stubs := old(StubsOf(opts.funcInfo, l2, l3));
      prog.insns == InjectAll(old(prog.insns), Fitting(stubs, |old(prog.insns)|)) &&
      if Within(stubs, |old(prog.insns)|) then
        ret == 0 && opts.funcInfo == [] && opts.lineInfoCnt == 0
      else
        ret == -EINVAL && opts.funcInfo == old(opts.funcInfo) && opts.lineInfoCnt == old(opts.lineInfoCnt)
  {
    hide InjectAll, StubsOf, Shift, Ascending, Within, Fitting, NamesStub, NamesL3;
    ghost var code, infos := prog.insns, opts.funcInfo;
    var offset := 0;
    NoStubsYet(code, infos, l2, l3);
    for i := 0 to |opts.funcInfo|
      invariant opts.funcInfo == infos && opts.lineInfoCnt == old(opts.lineInfoCnt)
      invariant var done := StubsOf(infos[..i], l2, l3);
        Ascending(done) && Within(done, |code|) && prog.insns == InjectAll(code, done) &&
        offset == Shift(done) <= i * 0x8000_0000
    {
      ghost var done := StubsOf(infos[..i], l2, l3);
      StubsOfStep(infos, l2, l3, i);
      if opts.funcInfo[i].func.Unnamed? {
        continue;
      }
      var name := opts.funcInfo[i].func.name;
      if !NamesStub(name) {
        continue;
      }
      var insns := if NamesL3(name) then l3 else l2;
      var injectRet := InjectStub(prog, opts.funcInfo[i].insnOff, offset, insns, code, done);
      if injectRet != 0 {
        FittingIs(StubsOf(infos, l2, l3), |code|, done);
        return injectRet;
      }
      ShiftStep(done, Stub(opts.funcInfo[i].insnOff, insns));
      offset := offset + (|insns| - STUB_ORIG_LEN);
    }
    assert infos[..|infos|] == infos;
    opts.funcInfo := [];
    opts.lineInfoCnt := 0;
    ret := 0;
  }

  lemma NoStubsYet(code: seq<BpfInsn>, infos: seq<FuncInfo>, l2: seq<BpfInsn>, l3: seq<BpfInsn>)
    ensures StubsOf(infos[..0], l2, l3) == [] && Ascending([]) && Within([], |code|)
    ensures InjectAll(code, []) == code && Shift([]) == 0
  {
  }

  lemma ShiftStep(init: seq<Stub>, last: Stub)
    ensures Shift(init + [last]) == Shift(init) + Delta(last)
  {
    ImageStep(init, last, 0);
  }
}
