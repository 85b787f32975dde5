/*
 * The stack-growth predicate of the page-fault path. Pointers are 32-bit
 * unsigned values, so esp - 4 and esp - 32 wrap around below address 0.
 */
module Stack {
  import opened VmBase

  /** Lowest address the stack may grow down to: PHYS_BASE - MAX_STACK_SIZE. */
  const STACK_LIMIT: nat := PHYS_BASE - MAX_STACK_SIZE

  /** Byte-pointer subtraction on 32-bit pointers. */
  function PtrSub(p: Ptr, n: nat): (r: Ptr)
    ensures n <= p ==> r == p - n
    ensures n > p && n <= PTR_LIMIT ==> r == PTR_LIMIT + p - n
  {
    (p - n) % PTR_LIMIT
  }

  /** is_stack_access: at or above esp, or exactly where PUSH (esp - 4) or PUSHA (esp - 32)
      fault, and inside the MAX_STACK_SIZE bytes below PHYS_BASE. */
  function IsStackAccess(addr: Ptr, esp: Ptr): bool {
    (esp <= addr || addr == PtrSub(esp, 4) || addr == PtrSub(esp, 32))
    && STACK_LIMIT <= addr && addr < PHYS_BASE
  }

  /** The page a stack access grows is a user page of the stack region. */
  lemma StackAccessPage(addr: Ptr, esp: Ptr)
    requires IsStackAccess(addr, esp)
    ensures STACK_LIMIT <= PgRoundDown(addr) < PHYS_BASE
    ensures PgRoundDown(addr) <= addr < PgRoundDown(addr) + PGSIZE
  {
    assert STACK_LIMIT % PGSIZE == 0;
    RoundDownIff(addr, PgRoundDown(addr));
    if PgRoundDown(addr) < STACK_LIMIT {
      AlignedApart(PgRoundDown(addr), STACK_LIMIT);
    }
  }

  /** Without wrap-around (esp >= 32) the predicate says: addr is in the stack region and is
      at or above esp, or exactly 4 or 32 bytes below it. */
  lemma NearStackPointer(addr: Ptr, esp: Ptr)
    requires esp >= 32
    ensures IsStackAccess(addr, esp) <==>
      STACK_LIMIT <= addr < PHYS_BASE && (esp <= addr || esp - addr == 4 || esp - addr == 32)
  {
  }

  /** Every other address below esp is refused, however close to esp it lies. */
  lemma BelowStackPointerRefused(addr: Ptr, esp: Ptr)
    requires addr < esp && esp - addr != 4 && esp - addr != 32
    ensures !IsStackAccess(addr, esp)
  {
    if esp < 32 {
      assert PtrSub(esp, 32) >= PTR_LIMIT - 32;
      if esp >= 4 {
        assert PtrSub(esp, 4) == esp - 4;
      } else {
        assert PtrSub(esp, 4) >= PTR_LIMIT - 4;
      }
    }
  }
}
