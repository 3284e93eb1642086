/** The debugger's read of a run of linear addresses, one page at a time. */
module LinearRead {
  import opened Machine
  import opened PageMap

  /** Where a linear address is mapped, if it is. */
  type Mapping = nat -> Option<nat>

  /** What the debugger finds in physical memory; beyond its limits there is nothing. */
  type Physical = nat -> Option<byte>

  /** What is left of the 4 KB that `laddr` lies in. */
  function RemainsInPage(laddr: nat): nat { PAGE - laddr % PAGE }

  /** Within 4 KB, consecutive linear addresses are mapped to consecutive physical ones. */
  ghost predicate Consecutive(mapped: Mapping) {
    forall laddr: nat, a: nat {:trigger mapped(laddr), mapped(a)} :: laddr <= a < laddr + RemainsInPage(laddr) ==>
      mapped(a) == match mapped(laddr) case None => None case Some(p) => Some(p + (a - laddr))
  }

  /** Linear addresses wrap at 32 bits. */
  function Linear(laddr: nat): nat { laddr % TWO_32 }

  lemma LinearStep(laddr: nat, i: nat)
    requires i < RemainsInPage(laddr)
    ensures Linear(laddr + i) == Linear(laddr) + i && Linear(laddr) % PAGE == laddr % PAGE
  {
    var q, r := laddr / TWO_32, laddr % TWO_32;
    assert laddr == q * TWO_32 + r;
    assert r % PAGE == laddr % PAGE;
    assert r + i < TWO_32;
  }

  lemma WholeUnits(start: nat, size: nat, lin: nat, i: nat)
    requires start % PAGE == 0 && size % PAGE == 0 && start <= lin < start + size && i < PAGE - lin % PAGE
    ensures lin + i < start + size
  {
  }

  /** The mapping that a page walk finds. */
  ghost function WalkMapping(w: Walk): Mapping
    requires Paged(w)
  {
    laddr => Translate(w, Linear(laddr))
  }

  /** Every page walk maps consecutively within 4 KB. */
  lemma WalkConsecutive(w: Walk)
    requires Paged(w) && PagesAgree(w)
    ensures Consecutive(WalkMapping(w))
  {
    forall laddr: nat, a: nat | laddr <= a < laddr + RemainsInPage(laddr)
      ensures Translate(w, Linear(a))
           == match Translate(w, Linear(laddr)) case None => None case Some(p) => Some(p + (a - laddr))
    {
      SamePageMapped(w, laddr, a);
    }
  }

  lemma SamePageMapped(w: Walk, laddr: nat, a: nat)
    requires Paged(w) && PagesAgree(w) && laddr <= a < laddr + RemainsInPage(laddr)
    ensures Translate(w, Linear(a))
         == match Translate(w, Linear(laddr)) case None => None case Some(p) => Some(p + (a - laddr))
  {
    var lin, i := Linear(laddr), a - laddr;
    LinearStep(laddr, i);
    WholeUnits(w(lin).start, w(lin).size, lin, i);
    assert w(lin + i) == w(lin);
  }

  /** The byte at a linear address, if it is mapped to memory that is there. */
  function At(mapped: Mapping, phys: Physical, laddr: nat): Option<byte> {
    match mapped(laddr)
    case None => None
    case Some(p) => phys(p)
  }

  /** Copies `n` bytes from physical memory, and 0xff for bytes that are not there. */
  method Fetch(phys: Physical, paddr: nat, n: nat, buf: array<byte>, pos: nat) returns (ok: bool)
    requires pos + n <= buf.Length
    modifies buf
    ensures ok <==> forall a: nat :: paddr <= a < paddr + n ==> phys(a).Some?
    ensures forall j :: pos <= j < pos + n ==>
      buf[j] == match phys(paddr + (j - pos)) case None => 0xff case Some(b) => b
    ensures forall j :: 0 <= j < buf.Length && !(pos <= j < pos + n) ==> buf[j] == old(buf[j])
  {
    ok := true;
    var i := 0;
    while i < n
      invariant 0 <= i <= n && (ok <==> forall a: nat :: paddr <= a < paddr + i ==> phys(a).Some?)
      invariant forall j :: pos <= j < pos + i ==>
        buf[j] == match phys(paddr + (j - pos)) case None => 0xff case Some(b) => b
      invariant forall j :: 0 <= j < buf.Length && !(pos <= j < pos + i) ==> buf[j] == old(buf[j])
    {
      var b := phys(paddr + i);
      if b.Some? {
        buf[pos + i] := b.value;
      } else {
        buf[pos + i] := 0xff;
        ok := false;
      }
      i := i + 1;
    }
  }

  /** All `n` bytes from `laddr` on are there. */
  ghost predicate AllThere(mapped: Mapping, phys: Physical, laddr: nat, n: nat) {
    forall a {:trigger At(mapped, phys, a)} :: laddr <= a < laddr + n ==> At(mapped, phys, a).Some?
  }

  /** The `n` bytes from `laddr` on are there, and the buffer holds them from `pos` on. */
  ghost predicate Loaded(mapped: Mapping, phys: Physical, laddr: nat, n: nat, buf: array<byte>, pos: nat)
    requires pos + n <= buf.Length
    reads buf
  {
    forall j {:trigger buf[j]} :: pos <= j < pos + n ==> At(mapped, phys, laddr + (j - pos)) == Some(buf[j])
  }

  /** The part of a read that lies in one page. */
  method ReadInPage(mapped: Mapping, phys: Physical, laddr: nat, n: nat, buf: array<byte>, pos: nat) returns (ok: bool)
    requires Consecutive(mapped) && pos + n <= buf.Length && n <= RemainsInPage(laddr)
    modifies buf
    ensures ok <==> mapped(laddr).Some? && AllThere(mapped, phys, laddr, n)
    ensures ok ==> Loaded(mapped, phys, laddr, n, buf, pos)
    ensures forall j :: 0 <= j < buf.Length && !(pos <= j < pos + n) ==> buf[j] == old(buf[j])
  {
    var paddr := mapped(laddr);
    if paddr == None {
      return false;
    }
    PageBytes(mapped, phys, laddr, n, paddr.value);
    ok := Fetch(phys, paddr.value, n, buf, pos);
  }

  lemma PageBytes(mapped: Mapping, phys: Physical, laddr: nat, n: nat, paddr: nat)
    requires Consecutive(mapped) && mapped(laddr) == Some(paddr) && n <= RemainsInPage(laddr)
    ensures forall a: nat {:trigger At(mapped, phys, a)} :: laddr <= a < laddr + n ==>
      At(mapped, phys, a) == phys(paddr + (a - laddr))
    ensures AllThere(mapped, phys, laddr, n) <==> forall a: nat :: paddr <= a < paddr + n ==> phys(a).Some?
  {
    forall a: nat | AllThere(mapped, phys, laddr, n) && paddr <= a < paddr + n
      ensures phys(a).Some?
    {
      assert At(mapped, phys, laddr + (a - paddr)).Some?;
    }
  }

  /** `bx_dbg_read_linear` succeeds exactly when every byte asked for is there; then the buffer holds those
      bytes, in order.  The first page has to be mapped even if no byte is asked for. */
  method ReadLinear(mapped: Mapping, phys: Physical, from: nat, n: nat, buf: array<byte>) returns (ok: bool)
    requires Consecutive(mapped) && n <= buf.Length
    modifies buf
    ensures ok <==> mapped(from).Some? && AllThere(mapped, phys, from, n)
    ensures ok ==> Loaded(mapped, phys, from, n, buf, 0)
    ensures forall j :: n <= j < buf.Length ==> buf[j] == old(buf[j])
  {
    var laddr, len, pos := from, n, 0;
    while true
      invariant pos + len == n && laddr == from + pos && (pos > 0 ==> len > 0)
      invariant pos > 0 ==> mapped(from).Some?
      invariant AllThere(mapped, phys, from, pos) && Loaded(mapped, phys, from, pos, buf, 0)
      invariant forall j :: n <= j < buf.Length ==> buf[j] == old(buf[j])
      decreases len
    {
      var remainsInPage := RemainsInPage(laddr);
      var readLen := if remainsInPage < len then remainsInPage else len;
      ok := ReadInPage(mapped, phys, laddr, readLen, buf, pos);
      if !ok {
        ReadFails(mapped, phys, from, n, pos, readLen);
        return;
      }
      if remainsInPage >= len {
        return;
      }
      laddr := laddr + readLen;
      len := len - readLen;
      pos := pos + readLen;
    }
  }

  lemma ReadFails(mapped: Mapping, phys: Physical, from: nat, n: nat, pos: nat, readLen: nat)
    requires pos + readLen <= n && (n > pos ==> readLen > 0) && (pos > 0 ==> n > pos)
    requires !(mapped(from + pos).Some? && AllThere(mapped, phys, from + pos, readLen))
    ensures !(mapped(from).Some? && AllThere(mapped, phys, from, n))
  {
    if mapped(from + pos) == None {
      assert At(mapped, phys, from + pos) == None;
    }
  }
}
