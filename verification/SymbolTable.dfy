/** The loaded `.dynsym`, `.dynstr`, `.gnu.hash` and `.hash` of one ELF file, and the plain linear
scans that every indexed search is measured against. */
module SymbolTable {
  import opened Words
  import opened Wrappers
  import opened CStrings

  const SHN_UNDEF := 0
  const STT_TLS := 6

  datatype Sym = Sym(stName: nat, stInfo: nat, stShndx: nat, stValue: nat, stSize: nat)
  {
    /** ELF_ST_TYPE: the low four bits of the info byte. */
    function Type(): nat {
      stInfo % 16
    }
  }

  /** `.gnu.hash`, its words as naturals; chain word `k` belongs to symbol `symoffset + k`. A section that is
  absent has no buckets. */
  datatype GnuHash = GnuHash(symoffset: nat, bloomShift: nat, bloom: seq<nat>, buckets: seq<nat>, chains: seq<nat>)

  /** `.hash`; chain entry `i` is the symbol after symbol `i`, and 0 ends a chain. */
  datatype SysvHash = SysvHash(buckets: seq<nat>, chains: seq<nat>)

  /** `bits` is the width of a machine word (ELFCLASS32 or ELFCLASS64); `thumb` says that bit 0 of a
  symbol value is the instruction set and not part of the address. */
  datatype Elf = Elf(bits: nat, thumb: bool, dynsym: seq<Sym>, dynstr: seq<Byte>, gnu: GnuHash, sysv: SysvHash)
  {
    function Modulus(): nat
      requires bits == 32 || bits == 64
    {
      WordModulus(bits)
    }

    predicate HasName(i: nat)
      requires i < |dynsym|
    {
      dynsym[i].stName < |dynstr|
    }

    function NameOf(i: nat): CString
      requires i < |dynsym| && HasName(i)
    {
      CStr(dynstr[dynsym[i].stName..])
    }

    predicate IsNamed(i: nat, key: CString)
      requires i < |dynsym|
    {
      HasName(i) && NameOf(i) == key
    }

    predicate IsDefined(i: nat)
      requires i < |dynsym|
    {
      dynsym[i].stShndx != SHN_UNDEF
    }

    /** Whether symbol `i` covers `offset`: defined, not thread-local, and `offset` inside
    [value, value + size) where the sum wraps at the machine word. */
    predicate Covers(i: nat, offset: nat)
      requires (bits == 32 || bits == 64) && i < |dynsym|
    {
      var sym := dynsym[i];
      var start := if thumb && sym.stValue % 2 == 1 then sym.stValue - 1 else sym.stValue;
      && IsDefined(i)
      && sym.Type() != STT_TLS
      && start <= offset < (start + sym.stSize) % Modulus()
    }

    /** The least index in [lo, hi) whose name is `key`. */
    function ScanByName(key: CString, lo: nat, hi: nat): (r: Option<nat>)
      requires lo <= hi <= |dynsym|
      ensures r.None? ==> forall i :: lo <= i < hi ==> !IsNamed(i, key)
      ensures r.Some? ==> lo <= r.value < hi && IsNamed(r.value, key) && forall i :: lo <= i < r.value ==>
          !IsNamed(i, key)
      decreases hi - lo
    {
      if lo == hi then None
      else if IsNamed(lo, key) then Some(lo)
      else ScanByName(key, lo + 1, hi)
    }

    predicate NoneNamed(key: CString, lo: nat, hi: nat)
      requires lo <= hi <= |dynsym|
    {
      forall i :: lo <= i < hi ==> !IsNamed(i, key)
    }

    lemma NoneNamedJoin(key: CString, lo: nat, i: nat, hi: nat)
      requires lo <= i < hi <= |dynsym| && NoneNamed(key, lo, i) && !IsNamed(i, key) && NoneNamed(key, i + 1, hi)
      ensures NoneNamed(key, lo, hi)
    {
    }

    lemma ScanMisses(key: CString, lo: nat, hi: nat)
      requires lo <= hi <= |dynsym| && NoneNamed(key, lo, hi)
      ensures ScanByName(key, lo, hi) == None
    {
    }

    lemma ScanFinds(key: CString, lo: nat, i: nat, hi: nat)
      requires lo <= i < hi <= |dynsym| && NoneNamed(key, lo, i) && IsNamed(i, key)
      ensures ScanByName(key, lo, hi) == Some(i)
    {
    }

    /** The least index in [lo, hi) that covers `offset`. */
    function ScanByOffset(offset: nat, lo: nat, hi: nat): (r: Option<nat>)
      requires (bits == 32 || bits == 64) && lo <= hi <= |dynsym|
      ensures r.None? ==> forall i :: lo <= i < hi ==> !Covers(i, offset)
      ensures r.Some? ==> lo <= r.value < hi && Covers(r.value, offset) && forall i :: lo <= i < r.value ==>
          !Covers(i, offset)
      decreases hi - lo
    {
      if lo == hi then None
      else if Covers(lo, offset) then Some(lo)
      else ScanByOffset(offset, lo + 1, hi)
    }
  }
}
