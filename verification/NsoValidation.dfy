/** Which sets of modules may form a process at all. */
module NsoValidation {
  import opened ProcessLayout

  const RTLD := 0
  const MAIN := 1

  predicate NoOthers(p: Program)
    requires p.Valid()
  {
    forall i | MAIN < i < NSO_COUNT :: !p.has[i]
  }

  predicate Accepted(p: Program)
    requires p.Valid()
  {
    && p.has[MAIN]
    && (p.has[RTLD] || NoOthers(p))
    && forall i | 0 <= i < NSO_COUNT :: p.headers[i].textDst == 0
  }

  method ValidateNsoHeaders(p: Program) returns (ok: bool)
    requires p.Valid()
    ensures ok <==> Accepted(p)
  {
    if !p.has[MAIN] {
      return false;
    }
    if !p.has[RTLD] {
      for i := MAIN + 1 to NSO_COUNT
        invariant forall k | MAIN < k < i :: !p.has[k]
      {
        if p.has[i] { return false; }
      }
    }
    for i := 0 to NSO_COUNT
      invariant forall k | 0 <= k < i :: p.headers[k].textDst == 0
    {
      if p.headers[i].textDst != 0 { return false; }
    }
    return true;
  }

  /** An accepted process has a first module, behind which its arguments go: the linker if there is one,
      else the main module, and then nothing else is mapped. */
  lemma FirstModule(p: Program)
    requires p.Valid() && Accepted(p)
    ensures p.AnyBefore(NSO_COUNT) && p.First(NSO_COUNT) == if p.has[RTLD] then RTLD else MAIN
    ensures p.HasArgs(NSO_COUNT) <==> p.argsSize > 0
    ensures !p.has[RTLD] ==>
              p.Total(NSO_COUNT) == NsoSize(p.headers[MAIN]) + (if p.argsSize > 0 then ArgsSize(p.argsSize) else 0)
  {
    hide NsoSize, ArgsSize;
    assert p.has[MAIN];
    if !p.has[RTLD] {
      OnlyMain(p, NSO_COUNT);
    }
  }

  lemma {:induction false} OnlyMain(p: Program, n: nat)
    requires p.Valid() && Accepted(p) && !p.has[RTLD] && MAIN < n <= NSO_COUNT
    ensures p.Total(n) == NsoSize(p.headers[MAIN]) + (if p.argsSize > 0 then ArgsSize(p.argsSize) else 0)
  {
    hide NsoSize, ArgsSize;
    if n == MAIN + 1 {
      assert p.Total(MAIN) == 0 && p.ArgsAfter(MAIN) == (p.argsSize > 0);
    } else {
      OnlyMain(p, n - 1);
      assert !p.has[n - 1];
    }
  }
}
