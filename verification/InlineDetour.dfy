/**
 Inline patching of a function prologue (`inline_detour.rs`): steal at least 12 bytes, keep
 them in a trampoline that jumps back, overwrite the prologue with a jump to the detour.
 */
module InlineDetour {
  import opened Bytes
  import opened ProcessMemory

  const JUMP_BYTES: nat := 12
  const JUMP_BACK_BYTES: nat := 14
  const DECODE_WINDOW: nat := 32
  const NOP: Byte := 0x90

  datatype Patch = Patch(target: Addr, detour: Addr, trampoline: Addr, original: seq<Byte>)

  /** What the operating system and the instruction decoder answer while patching. */
  datatype PatchAnswers = PatchAnswers(stolen: nat, trampoline: Option<Addr>, protect: bool)

  function Nops(n: nat): (bs: seq<Byte>)
    ensures |bs| == n
  {
    seq(n, _ => NOP)
  }

  /** `mov rax, detour; jmp rax`, padded with no-ops to the stolen length. */
  function PatchCode(detour: Addr, stolen: nat): (bs: seq<Byte>)
    requires stolen >= JUMP_BYTES
    ensures |bs| == stolen
  {
    [0x48, 0xB8] + LeBytes(detour, 8) + [0xFF, 0xE0] + Nops(stolen - JUMP_BYTES)
  }

  /** The stolen bytes followed by `jmp [rip+0]` and the address to resume at. */
  function TrampolineCode(original: seq<Byte>, resume: Addr): (bs: seq<Byte>)
    ensures |bs| == |original| + JUMP_BACK_BYTES
  {
    original + [0xFF, 0x25, 0, 0, 0, 0] + LeBytes(resume, 8)
  }

  /** Answers respect their contracts: the target window is committed, a trampoline is fresh. */
  predicate AnswersOk(mem: Mem, target: Addr, a: PatchAnswers) {
    && target > 0
    && Mapped(mem, target, DECODE_WINDOW)
    && a.stolen <= DECODE_WINDOW
    && (a.trampoline.Some? ==> Unmapped(mem, a.trampoline.value, a.stolen + JUMP_BACK_BYTES)
                               && a.trampoline.value > 0)
  }

  /** `install`: the new memory and the patch, or the old memory when any step is refused. */
  function Install(mem: Mem, target: Addr, detour: Addr, a: PatchAnswers): (r: (Mem, Option<Patch>))
    requires AnswersOk(mem, target, a)
  {
    if a.stolen < JUMP_BYTES || a.trampoline.None? then (mem, None) else
    var t := a.trampoline.value;
    var original := Load(mem, target, a.stolen);
    var withTrampoline := Commit(mem, t, TrampolineCode(original, target + a.stolen));
    if !a.protect then (Release(withTrampoline, t, a.stolen + JUMP_BACK_BYTES), None)
    else (Store(withTrampoline, target, PatchCode(detour, a.stolen)),
          Some(Patch(target, detour, t, original)))
  }

  /** `Hook::remove`: put the prologue back (when the page can be made writable), free the trampoline. */
  function Uninstall(mem: Mem, p: Patch, protect: bool): Mem {
    Release(if protect then Store(mem, p.target, p.original) else mem,
            p.trampoline, |p.original| + JUMP_BACK_BYTES)
  }

  /** `verify_patched`. */
  predicate VerifyPatched(mem: Mem, p: Patch)
    requires Mapped(mem, p.target, JUMP_BYTES)
  {
    var b := Load(mem, p.target, JUMP_BYTES);
    b[0] == 0x48 && b[1] == 0xB8 && LeNat(b[2..10]) == p.detour && b[10] == 0xFF && b[11] == 0xE0
  }

  lemma HoldsPrefix(mem: Mem, start: Addr, bs: seq<Byte>, n: nat)
    requires Holds(mem, start, bs) && n <= |bs|
    ensures Mapped(mem, start, n) && Load(mem, start, n) == bs[..n]
  {
    assert forall x :: start <= x < start + n ==> x in mem;
    HoldsUnique(mem, start, Load(mem, start, n), bs[..n]);
  }

  /** A prologue that holds the patch passes the check, whatever the detour. */
  lemma PatchedVerifies(mem: Mem, p: Patch)
    requires p.detour < U64_LIMIT && |p.original| >= JUMP_BYTES
    requires Holds(mem, p.target, PatchCode(p.detour, |p.original|))
    ensures Mapped(mem, p.target, JUMP_BYTES) && VerifyPatched(mem, p)
  {
    var code := PatchCode(p.detour, |p.original|);
    HoldsPrefix(mem, p.target, code, JUMP_BYTES);
    DetourField(p.detour, code[12..]);
    assert code == [0x48, 0xB8] + LeBytes(p.detour, 8) + [0xFF, 0xE0] + code[12..];
    assert code[..12][2..10] == code[2..10];
  }

  lemma DetourField(detour: Addr, rest: seq<Byte>)
    requires detour < U64_LIMIT
    ensures LeNat(([0x48, 0xB8] + LeBytes(detour, 8) + [0xFF, 0xE0] + rest)[2..10]) == detour
  {
    Capacities();
    LeRoundTrip(detour, 8);
    assert ([0x48, 0xB8] + LeBytes(detour, 8) + [0xFF, 0xE0] + rest)[2..10] == LeBytes(detour, 8);
  }

  /** The check tells detours apart: it fails for any other representable detour. */
  lemma VerifyRejectsOtherDetour(mem: Mem, p: Patch, other: Addr)
    requires p.detour < U64_LIMIT && |p.original| >= JUMP_BYTES && other != p.detour
    requires Holds(mem, p.target, PatchCode(p.detour, |p.original|))
    ensures Mapped(mem, p.target, JUMP_BYTES) && !VerifyPatched(mem, p.(detour := other))
  {
    PatchedVerifies(mem, p);
  }

  /** A refused installation leaves memory as it was, the freed trampoline included. */
  lemma RefusedInstallNoTrace(mem: Mem, target: Addr, detour: Addr, a: PatchAnswers)
    requires AnswersOk(mem, target, a) && Install(mem, target, detour, a).1.None?
    ensures Install(mem, target, detour, a).0 == mem
    ensures a.stolen < JUMP_BYTES || a.trampoline.None? || !a.protect
  {
  }

  /** Removing a patch right after installing it restores the whole memory. */
  lemma InstallUninstall(mem: Mem, target: Addr, detour: Addr, a: PatchAnswers)
    requires AnswersOk(mem, target, a) && Install(mem, target, detour, a).1.Some?
    ensures var (m, p) := Install(mem, target, detour, a);
            Uninstall(m, p.value, true) == mem
  {
  }

  // ----- what the code in memory does -----

  /** A part of what memory holds. */
  lemma HoldsPart(mem: Mem, start: Addr, front: seq<Byte>, part: seq<Byte>, rest: seq<Byte>)
    requires Holds(mem, start, front + part + rest)
    ensures Holds(mem, start + |front|, part)
  {
    var all := front + part + rest;
    forall x: Addr | start + |front| <= x < start + |front| + |part| ensures x in mem && mem[x] == part[x - start - |front|] {
      assert all[x - start] == part[x - start - |front|];
    }
  }

  /** `w` bytes at `a` read as the little-endian number `n`. */
  ghost predicate HoldsNumber(mem: Mem, a: Addr, w: nat, n: nat) {
    exists bs: seq<Byte> :: |bs| == w && Holds(mem, a, bs) && LeNat(bs) == n
  }

  /** At `t` lie the bytes `original`, then `jmp [rip+0]` and the address `resume`. */
  ghost predicate Replays(mem: Mem, t: Addr, original: seq<Byte>, resume: Addr) {
    && Holds(mem, t, original)
    && Holds(mem, t + |original|, [0xFF, 0x25, 0, 0, 0, 0])
    && HoldsNumber(mem, t + |original| + 6, 8, resume)
  }

  /** At `target` lies `mov rax, detour; jmp rax`, filled up with no-ops to `n` bytes. */
  ghost predicate Detours(mem: Mem, target: Addr, detour: Addr, n: nat) {
    && n >= 12
    && Holds(mem, target, [0x48, 0xB8])
    && HoldsNumber(mem, target + 2, 8, detour)
    && Holds(mem, target + 10, [0xFF, 0xE0])
    && forall x :: target + 12 <= x < target + n ==> x in mem && mem[x] == 0x90
  }

  lemma AddressField(a: Addr, field: seq<Byte>)
    requires a < U64_LIMIT && field == LeBytes(a, 8)
    ensures |field| == 8 && LeNat(field) == a
  {
    Capacities();
    LeRoundTrip(a, 8);
  }

  lemma CodeReplays(mem: Mem, t: Addr, original: seq<Byte>, jump: seq<Byte>, address: seq<Byte>)
    requires |jump| == 6 && |address| == 8 && Holds(mem, t, original + jump + address)
    ensures Holds(mem, t, original) && Holds(mem, t + |original|, jump)
    ensures HoldsNumber(mem, t + |original| + 6, 8, LeNat(address))
  {
    assert original + jump + address == [] + original + (jump + address);
    HoldsPart(mem, t, [], original, jump + address);
    HoldsPart(mem, t, original, jump, address);
    assert original + jump + address == (original + jump) + address + [];
    HoldsPart(mem, t, original + jump, address, []);
  }

  lemma TrampolineReplays(mem: Mem, t: Addr, original: seq<Byte>, resume: Addr)
    requires Holds(mem, t, TrampolineCode(original, resume)) && resume < U64_LIMIT
    ensures Replays(mem, t, original, resume)
  {
    AddressField(resume, LeBytes(resume, 8));
    CodeReplays(mem, t, original, [0xFF, 0x25, 0, 0, 0, 0], LeBytes(resume, 8));
  }

  lemma CodeDetours(mem: Mem, target: Addr, mov: seq<Byte>, address: seq<Byte>, jmp: seq<Byte>, pad: seq<Byte>)
    requires |mov| == 2 && |address| == 8 && |jmp| == 2 && Holds(mem, target, mov + address + jmp + pad)
    ensures Holds(mem, target, mov) && HoldsNumber(mem, target + 2, 8, LeNat(address))
    ensures Holds(mem, target + 10, jmp) && Holds(mem, target + 12, pad)
  {
    var code := mov + address + jmp + pad;
    assert code == [] + mov + (address + jmp + pad);
    HoldsPart(mem, target, [], mov, address + jmp + pad);
    assert code == mov + address + (jmp + pad);
    HoldsPart(mem, target, mov, address, jmp + pad);
    assert code == (mov + address) + jmp + pad;
    HoldsPart(mem, target, mov + address, jmp, pad);
    assert code == (mov + address + jmp) + pad + [];
    HoldsPart(mem, target, mov + address + jmp, pad, []);
  }

  lemma PatchDetours(mem: Mem, target: Addr, detour: Addr, n: nat)
    requires n >= JUMP_BYTES && Holds(mem, target, PatchCode(detour, n)) && detour < U64_LIMIT
    ensures Detours(mem, target, detour, n)
  {
    AddressField(detour, LeBytes(detour, 8));
    CodeDetours(mem, target, [0x48, 0xB8], LeBytes(detour, 8), [0xFF, 0xE0], Nops(n - JUMP_BYTES));
  }

  /** `verify_patched` says yes exactly when the prologue jumps to the detour. */
  lemma VerifiesExactly(mem: Mem, p: Patch)
    requires Mapped(mem, p.target, JUMP_BYTES)
    ensures VerifyPatched(mem, p) <==> Detours(mem, p.target, p.detour, 12)
  {
    PrologueBytes(mem, p.target, p.detour, Load(mem, p.target, JUMP_BYTES));
  }

  lemma PrologueBytes(mem: Mem, target: Addr, detour: Addr, b: seq<Byte>)
    requires |b| == 12 && Holds(mem, target, b)
    ensures (b[0] == 0x48 && b[1] == 0xB8 && LeNat(b[2..10]) == detour && b[10] == 0xFF && b[11] == 0xE0) <==>
            Detours(mem, target, detour, 12)
  {
    var mov, field, jmp := b[..2], b[2..10], b[10..];
    assert b == mov + field + jmp + [];
    CodeDetours(mem, target, mov, field, jmp, []);
    assert mov == [b[0], b[1]] && jmp == [b[10], b[11]];
    if Detours(mem, target, detour, 12) {
      HoldsUnique(mem, target, mov, [0x48, 0xB8]);
      HoldsUnique(mem, target + 10, jmp, [0xFF, 0xE0]);
      assert b == mov + field + jmp;
      HoldsPart(mem, target, mov, field, jmp);
      OneNumber(mem, target + 2, field, detour);
    }
  }

  lemma OneNumber(mem: Mem, a: Addr, field: seq<Byte>, n: nat)
    requires Holds(mem, a, field) && HoldsNumber(mem, a, |field|, n)
    ensures LeNat(field) == n
  {
    var bs: seq<Byte> :| |bs| == |field| && Holds(mem, a, bs) && LeNat(bs) == n;
    HoldsUnique(mem, a, field, bs);
  }

  /**
   An installation succeeds exactly with 12 bytes to steal, a trampoline and a writable page. Then
   the trampoline runs the stolen instructions and goes on behind them, the prologue jumps to the
   detour, the patch records both, and no other byte has changed.
   */
  lemma InstallsCode(mem: Mem, target: Addr, detour: Addr, a: PatchAnswers)
    requires AnswersOk(mem, target, a) && detour < U64_LIMIT && target + a.stolen < U64_LIMIT
    ensures var (m, p) := Install(mem, target, detour, a);
            && (p.Some? <==> a.stolen >= 12 && a.trampoline.Some? && a.protect)
            && (p.Some? ==>
                  var t, original := a.trampoline.value, Load(mem, target, a.stolen);
                  && p.value == Patch(target, detour, t, original)
                  && Replays(m, t, original, target + a.stolen) && Detours(m, target, detour, a.stolen)
                  && (forall x :: x in m <==> x in mem || Within(x, t, a.stolen + 14))
                  && (forall x :: x in mem && !Within(x, target, a.stolen) ==> m[x] == mem[x]))
  {
    if Install(mem, target, detour, a).1.Some? {
      var code, patch := TrampolineCode(Load(mem, target, a.stolen), target + a.stolen), PatchCode(detour, a.stolen);
      InstalledAs(mem, target, detour, a, code, patch);
      InstalledBytes(mem, target, detour, a, code, patch);
      InstalledCode(mem, target, detour, a, code, patch);
    }
  }

  lemma InstalledCode(mem: Mem, target: Addr, detour: Addr, a: PatchAnswers, code: seq<Byte>, patch: seq<Byte>)
    requires AnswersOk(mem, target, a) && Install(mem, target, detour, a).1.Some?
    requires code == TrampolineCode(Load(mem, target, a.stolen), target + a.stolen) && patch == PatchCode(detour, a.stolen)
    requires detour < U64_LIMIT && target + a.stolen < U64_LIMIT && a.stolen >= JUMP_BYTES
    ensures Replays(Install(mem, target, detour, a).0, a.trampoline.value, Load(mem, target, a.stolen), target + a.stolen)
    ensures Detours(Install(mem, target, detour, a).0, target, detour, a.stolen)
  {
    var m := Install(mem, target, detour, a).0;
    InstalledBytes(mem, target, detour, a, code, patch);
    TrampolineReplays(m, a.trampoline.value, Load(mem, target, a.stolen), target + a.stolen);
    PatchDetours(m, target, detour, a.stolen);
  }

  lemma InstalledBytes(mem: Mem, target: Addr, detour: Addr, a: PatchAnswers, code: seq<Byte>, patch: seq<Byte>)
    requires AnswersOk(mem, target, a) && Install(mem, target, detour, a).1.Some?
    requires code == TrampolineCode(Load(mem, target, a.stolen), target + a.stolen) && patch == PatchCode(detour, a.stolen)
    ensures var m, t := Install(mem, target, detour, a).0, a.trampoline.value;
            && Holds(m, t, code) && Holds(m, target, patch)
            && (forall x :: x in m <==> x in mem || Within(x, t, a.stolen + 14))
            && (forall x :: x in mem && !Within(x, target, a.stolen) ==> m[x] == mem[x])
  {
    InstalledAs(mem, target, detour, a, code, patch);
    CommitThenStore(mem, a.trampoline.value, code, target, patch);
  }

  lemma InstalledAs(mem: Mem, target: Addr, detour: Addr, a: PatchAnswers, code: seq<Byte>, patch: seq<Byte>)
    requires AnswersOk(mem, target, a) && Install(mem, target, detour, a).1.Some?
    requires code == TrampolineCode(Load(mem, target, a.stolen), target + a.stolen) && patch == PatchCode(detour, a.stolen)
    ensures |code| == a.stolen + 14 && |patch| == a.stolen >= 12
    ensures Install(mem, target, detour, a).0 == Store(Commit(mem, a.trampoline.value, code), target, patch)
    ensures Install(mem, target, detour, a).1.value == Patch(target, detour, a.trampoline.value, Load(mem, target, a.stolen))
  {
  }

  lemma CommitThenStore(mem: Mem, t: Addr, code: seq<Byte>, target: Addr, patch: seq<Byte>)
    requires Unmapped(mem, t, |code|) && Mapped(mem, target, |patch|) && code != [] && patch != []
    ensures var m := Store(Commit(mem, t, code), target, patch);
            && Holds(m, t, code) && Holds(m, target, patch)
            && (forall x :: x in m <==> x in mem || Within(x, t, |code|))
            && (forall x :: x in mem && !Within(x, target, |patch|) ==> m[x] == mem[x])
  {
    FreshIsApart(mem, target, |patch|, t, |code|);
  }

  /** Removal puts the prologue back if its page can be written, and always frees the trampoline. */
  lemma UninstallsCode(mem: Mem, p: Patch, protect: bool)
    requires Mapped(mem, p.target, |p.original|)
    requires Apart(p.target, |p.original|, p.trampoline, |p.original| + 14)
    ensures var m := Uninstall(mem, p, protect);
            && (forall x :: x in m <==> x in mem && !Within(x, p.trampoline, |p.original| + 14))
            && (protect ==> Holds(m, p.target, p.original))
            && (forall x :: x in m && (!protect || !Within(x, p.target, |p.original|)) ==> m[x] == mem[x])
  {
  }
}
