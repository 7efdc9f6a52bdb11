/** Process identifiers: a slot index and a reuse generation packed in 64 bits
    (kernel/task.cpp, make_pid and its two projections). Shifts and masks are
    written as multiplication, division and remainder. */
module Pids {

  type Pid = nat

  const NO_PID: Pid := 0
  const TWO_56: nat := 0x100_0000_0000_0000
  const TWO_64: nat := 0x1_0000_0000_0000_0000
  const PID_GENERATION_MAX: nat := TWO_64 - 1

  /** A slot index that leaves the low byte of a PID between 1 and 255. */
  predicate IsSlot(slot: int) {
    0 <= slot < 255
  }

  function MakePid(slot: nat, generation: nat): Pid
    requires IsSlot(slot)
  {
    (generation * 256) % TWO_64 + slot + 1
  }

  /** -1 when the low byte is zero, as the cast to int gives in the source. */
  function SlotOf(pid: Pid): int {
    pid % 256 - 1
  }

  function GenerationOf(pid: Pid): nat {
    pid / 256
  }

  lemma {:induction false} PackModulo(generation: nat)
    ensures (generation * 256) % TWO_64 == (generation % TWO_56) * 256
  {
    var q, r := generation / TWO_56, generation % TWO_56;
    assert generation == q * TWO_56 + r;
    assert generation * 256 == q * TWO_64 + r * 256;
    assert 0 <= r * 256 < TWO_64;
  }

  /** Unpacking gives back the slot, and the generation truncated to 56 bits. */
  lemma {:induction false} UnpackPid(slot: nat, generation: nat)
    requires IsSlot(slot)
    ensures MakePid(slot, generation) != NO_PID
    ensures SlotOf(MakePid(slot, generation)) == slot
    ensures GenerationOf(MakePid(slot, generation)) == generation % TWO_56
  {
    PackModulo(generation);
  }

  /** Exactly when two PIDs collide: same slot, and generations equal modulo
      2^56. The guard of find_free_slot, generation != 2^64 - 1, does not exclude it. */
  lemma {:induction false} PidCollision(s: nat, g: nat, s': nat, g': nat)
    requires IsSlot(s) && IsSlot(s')
    ensures MakePid(s, g) == MakePid(s', g') <==> s == s' && g % TWO_56 == g' % TWO_56
  {
    UnpackPid(s, g);
    UnpackPid(s', g');
    PackModulo(g);
    PackModulo(g');
  }

  /** A PID is reissued: generations 1 and 2^56 + 1 of slot 3 share one, and the
      guard of find_free_slot lets both be handed out. */
  lemma {:induction false} PidReissued()
    ensures MakePid(3, 1) == MakePid(3, TWO_56 + 1)
    ensures TWO_56 < PID_GENERATION_MAX
  {
    PidCollision(3, 1, 3, TWO_56 + 1);
  }
}
