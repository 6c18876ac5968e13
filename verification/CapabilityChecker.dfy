/** The scans of `ldr_capabilities.cpp`, proved against the meaning of capability lists. */
module CapabilityChecker {
  import opened KernelCapabilities
  import opened Wrappers

  lemma FirstOfPrefix(id: nat, kac: seq<Word>, i: nat)
    requires i < |kac| && forall k | 0 <= k < i :: CapabilityId(kac[k]) != id
    ensures CapabilityId(kac[i]) == id ==> FirstOf(id, kac) == Some(kac[i])
  {
    hide CapabilityId;
    if i > 0 && CapabilityId(kac[i]) == id {
      assert CapabilityId(kac[0]) != id;
      FirstOfPrefix(id, kac[1..], i - 1);
    }
  }

  lemma {:induction false} NoFirst(id: nat, kac: seq<Word>)
    requires forall k | 0 <= k < |kac| :: CapabilityId(kac[k]) != id
    ensures FirstOf(id, kac) == None
  {
    hide CapabilityId;
    if kac != [] { NoFirst(id, kac[1..]); }
  }

  /** The kinds whose first entry decides share this scan. */
  method FindFirst(id: nat, kac: seq<Word>) returns (r: Option<Word>)
    ensures r == FirstOf(id, kac)
  {
    hide CapabilityId;
    for i := 0 to |kac|
      invariant forall k | 0 <= k < i :: CapabilityId(kac[k]) != id
    {
      if CapabilityId(kac[i]) == id {
        FirstOfPrefix(id, kac, i);
        return Some(kac[i]);
      }
    }
    NoFirst(id, kac);
    return None;
  }

  method KernelFlagsIsValid(w: Word, kac: seq<Word>) returns (ok: bool)
    requires CapabilityId(w) == KERNEL_FLAGS
    ensures ok == WordAllowed(w, kac)
  {
    hide CapabilityId, MinimumThreadPriority, MaximumThreadPriority, MinimumCoreId, MaximumCoreId;
    var first := FindFirst(KERNEL_FLAGS, kac);
    if first.None? { return false; }
    var r := first.value;
    if || MinimumThreadPriority(w) < MinimumThreadPriority(r)
       || MaximumThreadPriority(w) > MaximumThreadPriority(r)
       || MinimumThreadPriority(w) > MaximumThreadPriority(w) {
      return false;
    }
    if MinimumCoreId(w) < MinimumCoreId(r) || MaximumCoreId(w) > MaximumCoreId(r)
      || MinimumCoreId(w) > MaximumCoreId(w)
    {
      return false;
    }
    return true;
  }

  method SyscallMaskIsValid(w: Word, kac: seq<Word>) returns (ok: bool)
    requires CapabilityId(w) == SYSCALL_MASK
    ensures ok == WordAllowed(w, kac)
    ensures ok <==> exists r :: r in kac && CapabilityId(r) == SYSCALL_MASK
                                && SyscallIndex(r) == SyscallIndex(w) && SyscallBits(r) == SyscallBits(w)
  {
    hide CapabilityId, SyscallIndex, SyscallBits;
    for i := 0 to |kac|
      invariant !exists k :: 0 <= k < i && CapabilityId(kac[k]) == SYSCALL_MASK
                             && SyscallIndex(kac[k]) == SyscallIndex(w) && SyscallBits(kac[k]) == SyscallBits(w)
    {
      if CapabilityId(kac[i]) == SYSCALL_MASK {
        if SyscallIndex(w) == SyscallIndex(kac[i]) && SyscallBits(w) == SyscallBits(kac[i]) { return true; }
      }
    }
    return false;
  }

  method MapPageIsValid(w: Word, kac: seq<Word>) returns (ok: bool)
    requires CapabilityId(w) == MAP_PAGE
    ensures ok == WordAllowed(w, kac)
    ensures ok <==> w in kac
  {
    hide CapabilityId;
    for i := 0 to |kac|
      invariant !exists k :: 0 <= k < i && CapabilityId(kac[k]) == MAP_PAGE && kac[k] == w
    {
      if CapabilityId(kac[i]) == MAP_PAGE {
        if w == kac[i] { return true; }
      }
    }
    return false;
  }

  method IsSingleIdValid(id: Word, kac: seq<Word>) returns (ok: bool)
    ensures ok == InterruptAllowed(id, kac)
  {
    hide CapabilityId, InterruptId0, InterruptId1;
    for i := 0 to |kac|
      invariant !exists k :: 0 <= k < i && CapabilityId(kac[k]) == INTERRUPT_PAIR && InterruptAllowedBy(id, kac[k])
    {
      if CapabilityId(kac[i]) == INTERRUPT_PAIR {
        var r := kac[i];
        if InterruptId0(r) == EMPTY_INTERRUPT && InterruptId1(r) == EMPTY_INTERRUPT { return true; }
        if InterruptId0(r) == id || InterruptId1(r) == id { return true; }
      }
    }
    return false;
  }

  method InterruptPairIsValid(w: Word, kac: seq<Word>) returns (ok: bool)
    requires CapabilityId(w) == INTERRUPT_PAIR
    ensures ok == WordAllowed(w, kac)
  {
    hide CapabilityId, InterruptAllowed;
    ok := IsSingleIdValid(InterruptId0(w), kac);
    if ok { ok := IsSingleIdValid(InterruptId1(w), kac); }
  }

  method FirstMatchIsValid(w: Word, kac: seq<Word>) returns (ok: bool)
    requires CapabilityId(w) in {APPLICATION_TYPE, KERNEL_VERSION, HANDLE_TABLE, DEBUG_FLAGS}
    ensures ok == WordAllowed(w, kac)
  {
    hide CapabilityId, HandleTableSize;
    var id := CapabilityId(w);
    var first := FindFirst(id, kac);
    if first.None? { return false; }
    if id == HANDLE_TABLE { return HandleTableSize(w) <= HandleTableSize(first.value); }
    if id == DEBUG_FLAGS { return DebugFlagsWithin(w, first.value); }
    return first.value == w;
  }

  method MapRangeIsValid(w: Word, next: Word, kac: seq<Word>) returns (ok: bool)
    ensures ok == RangeAllowed(w, next, kac)
  {
    hide CapabilityId, AddressSize, RangeFlag;
    if CapabilityId(next) != MAP_RANGE { return false; }
    var start := AddressSize(w);
    var size := AddressSize(next);
    var end := start + size;
    if size >= RANGE_SIZE_MAX { return false; }
    var i := 0;
    while i < |kac|
      invariant 0 <= i <= |kac|
      invariant RangeListed(w, next, kac) == RangeListed(w, next, kac[i..])
    {
      if CapabilityId(kac[i]) == MAP_RANGE {
        var r := kac[i];
        ghost var rest := kac[i..];
        i := i + 1;
        if i >= |kac| || CapabilityId(kac[i]) != MAP_RANGE { return false; }
        var rNext := kac[i];
        assert rest[0] == r && rest[1] == rNext && rest[2..] == kac[i + 1..];
        var rStart := AddressSize(r);
        var rEnd := rStart + AddressSize(rNext);
        if AddressSize(rNext) < RANGE_SIZE_MAX {
          if RangeFlag(w) == RangeFlag(r) && RangeFlag(next) == RangeFlag(rNext) {
            if rStart <= start && start <= rEnd && end <= rEnd { return true; }
          }
        }
      }
      i := i + 1;
    }
    return false;
  }

  method WordIsValid(w: Word, kac: seq<Word>) returns (ok: bool)
    requires IsPlainKind(CapabilityId(w))
    ensures ok == WordAllowed(w, kac)
  {
    hide CapabilityId, WordAllowed;
    var id := CapabilityId(w);
    if id == KERNEL_FLAGS { ok := KernelFlagsIsValid(w, kac); }
    else if id == SYSCALL_MASK { ok := SyscallMaskIsValid(w, kac); }
    else if id == MAP_PAGE { ok := MapPageIsValid(w, kac); }
    else if id == INTERRUPT_PAIR { ok := InterruptPairIsValid(w, kac); }
    else { ok := FirstMatchIsValid(w, kac); }
  }

  /** `ValidateCapabilities`: reports the first capability that is not allowed. */
  method ValidateCapabilities(acid: seq<Word>, aci: seq<Word>) returns (r: Result)
    ensures r == Validate(acid, aci)
  {
    hide CapabilityId, WordAllowed, RangeAllowed;
    var i := 0;
    while i < |aci|
      invariant 0 <= i <= |aci|
      invariant Validate(acid, aci) == Validate(acid, aci[i..])
    {
      var w := aci[i];
      var id := CapabilityId(w);
      ghost var rest := aci[i..];
      assert rest[0] == w && rest[1..] == aci[i + 1..];
      if id == MAP_RANGE {
        i := i + 1;
        if i >= |aci| { return InvalidCapability(MAP_RANGE); }
        var ok := MapRangeIsValid(w, aci[i], acid);
        if !ok { return InvalidCapability(MAP_RANGE); }
        assert rest[2..] == aci[i + 1..];
      } else if IsPlainKind(id) {
        var ok := WordIsValid(w, acid);
        if !ok { return InvalidCapability(id); }
      } else if id != EMPTY {
        return UnknownCapability;
      }
      i := i + 1;
    }
    return Success;
  }
}
