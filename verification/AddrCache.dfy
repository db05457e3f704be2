/** dladdr with a cache: xdl_addr4 keeps a linked list of the modules it has met. */
module AddrCache {
  import opened CStrings
  import opened ModuleIteration
  import opened SymbolTable
  import opened Words
  import opened Wrappers
  import Search = SymbolSearch

  // Which module an address belongs to

  /** xdl_elf_is_match: the end of a segment wraps at the machine word. */
  predicate SegmentHas(modulus: nat, phdr: Phdr, vaddr: nat)
    requires modulus > 0
  {
    phdr.isLoad && phdr.vaddr <= vaddr < (phdr.vaddr + phdr.memsz) % modulus
  }

  predicate IsIn(modulus: nat, info: Info, addr: nat)
    requires modulus > 0
  {
    addr >= info.addr && exists i :: 0 <= i < |info.phdrs| && SegmentHas(modulus, info.phdrs[i], addr - info.addr)
  }

  method ElfIsMatch(modulus: nat, info: Info, addr: nat) returns (r: bool)
    requires modulus > 0
    ensures r <==> IsIn(modulus, info, addr)
  {
    if addr < info.addr {
      return false;
    }
    var vaddr := addr - info.addr;
    for i := 0 to |info.phdrs|
      invariant forall k :: 0 <= k < i ==> !SegmentHas(modulus, info.phdrs[k], vaddr)
    {
      if SegmentHas(modulus, info.phdrs[i], vaddr) {
        return true;
      }
    }
    return false;
  }

  predicate Openable(info: Info) {
    info.addr != 0 && info.name.Some?
  }

  /** The search that the cache speeds up: the first delivered module the address is in. */
  function FirstWith(modulus: nat, infos: seq<Info>, addr: nat): (r: Option<Info>)
    requires modulus > 0
    ensures r.Some? ==> r.value in infos && Openable(r.value) && IsIn(modulus, r.value, addr)
    ensures r.None? ==> forall info :: info in infos && Openable(info) ==> !IsIn(modulus, info, addr)
  {
    if infos == [] then None
    else if Openable(infos[0]) && IsIn(modulus, infos[0], addr) then Some(infos[0])
    else FirstWith(modulus, infos[1..], addr)
  }

  /** xdl_open_by_addr_iterate_cb. */
  function OpenCallback(modulus: nat, addr: nat): Callback<Option<Info>>
    requires modulus > 0
  {
    (found: Option<Info>, info: Info) =>
      if Openable(info) && IsIn(modulus, info, addr) then (Some(info), 1) else (found, 0)
  }

  lemma {:induction false} FeedOpen(modulus: nat, addr: nat, infos: seq<Info>)
    requires modulus > 0
    ensures Feed(OpenCallback(modulus, addr), None, infos).0 == FirstWith(modulus, infos, addr)
  {
    if infos != [] && !(Openable(infos[0]) && IsIn(modulus, infos[0], addr)) {
      FeedOpen(modulus, addr, infos[1..]);
    }
  }

  method OpenByAddr(p: Process, addr: nat) returns (r: Option<Info>)
    requires ProcessOk(p)
    ensures r == if addr == 0 then None else FirstWith(p.Modulus(), Delivered(p), addr)
  {
    if addr == 0 {
      return None;
    }
    var ret;
    r, ret := IterateByLinker(p, OpenCallback(p.Modulus(), addr), None);
    FeedOpen(p.Modulus(), addr, Delivered(p));
  }

  // The answer for an address in a module

  datatype SymName = Name(name: CString) | DynstrOutOfBounds | StrtabOutOfBounds

  datatype Symbol = Symbol(name: SymName, addr: nat, size: nat)

  /** xdl_info_t after a successful call. */
  datatype Answer = Answer(fbase: nat, fname: Option<CString>, phdrs: seq<Phdr>, symbol: Option<Symbol>)

  const SHN_LORESERVE := 0xff00
  const SHN_HIRESERVE := 0xffff

  /** A `.symtab` symbol also has to lie outside the reserved sections. */
  predicate DebugCovers(elf: Elf, symtab: seq<Sym>, i: nat, offset: nat)
    requires (elf.bits == 32 || elf.bits == 64) && i < |symtab|
  {
    && !(SHN_LORESERVE <= symtab[i].stShndx <= SHN_HIRESERVE)
    && elf.(dynsym := symtab).Covers(i, offset)
  }

  function DebugScan(elf: Elf, symtab: seq<Sym>, offset: nat, from: nat): (r: Option<nat>)
    requires (elf.bits == 32 || elf.bits == 64) && from <= |symtab|
    ensures r.Some? ==> from <= r.value < |symtab| && DebugCovers(elf, symtab, r.value, offset)
    ensures r.Some? ==> forall i :: from <= i < r.value ==> !DebugCovers(elf, symtab, i, offset)
    ensures r.None? ==> forall i :: from <= i < |symtab| ==> !DebugCovers(elf, symtab, i, offset)
    decreases |symtab| - from
  {
    if from == |symtab| then None
    else if DebugCovers(elf, symtab, from, offset) then Some(from)
    else DebugScan(elf, symtab, offset, from + 1)
  }

  method DebugFindByOffset(elf: Elf, symtab: seq<Sym>, offset: nat) returns (r: Option<nat>)
    requires elf.bits == 32 || elf.bits == 64
    ensures r == DebugScan(elf, symtab, offset, 0)
  {
    var i := 0;
    while i < |symtab|
      invariant 0 <= i <= |symtab|
      invariant DebugScan(elf, symtab, offset, i) == DebugScan(elf, symtab, offset, 0)
    {
      if DebugCovers(elf, symtab, i, offset) {
        return Some(i);
      }
      i := i + 1;
    }
    return None;
  }

  ghost predicate InfoOk(info: Info) {
    Search.Loaded(info.image.elf)
  }

  ghost predicate AllInfosOk(p: Process)
    requires ProcessOk(p)
  {
    forall info :: info in Delivered(p) ==> InfoOk(info)
  }

  function Shown(elf: Elf, sym: Sym, strings: seq<Byte>, missing: SymName, loadBias: nat): Symbol
    requires elf.bits == 32 || elf.bits == 64
  {
    Symbol(if sym.stName < |strings| then Name(CStr(strings[sym.stName..])) else missing,
           (loadBias + sym.stValue) % elf.Modulus(), sym.stSize)
  }

  function SymbolAt(info: Info, addr: nat): Option<Symbol>
    requires InfoOk(info)
  {
    var elf := info.image.elf;
    var offset := Search.OffsetOf(elf, addr, info.addr);
    var dyn := Search.AddressScan(elf, offset);
    if dyn.Some? then
      Some(Shown(elf, elf.dynsym[dyn.value], elf.dynstr, DynstrOutOfBounds, info.addr))
    else
      var dbg := DebugScan(elf, info.image.symtab, offset, 0);
      if dbg.None? then None
      else Some(Shown(elf, info.image.symtab[dbg.value], info.image.strtab, StrtabOutOfBounds, info.addr))
  }

  function AnswerIn(info: Info, addr: nat, withSymbol: bool): Answer
    requires InfoOk(info)
  {
    Answer(info.addr, info.name, info.phdrs, if withSymbol then SymbolAt(info, addr) else None)
  }

  // What the answer has to do with the address

  /** The address lies in a PT_LOAD segment of the module. */
  ghost predicate InSegment(info: Info, addr: nat) {
    exists i :: 0 <= i < |info.phdrs| && InPhdr(info.addr, info.phdrs[i], addr)
  }

  predicate InPhdr(loadBias: nat, phdr: Phdr, addr: nat) {
    phdr.isLoad && loadBias + phdr.vaddr <= addr < loadBias + phdr.vaddr + phdr.memsz
  }

  ghost predicate SegmentsFit(modulus: nat, info: Info) {
    forall i :: 0 <= i < |info.phdrs| ==> info.phdrs[i].vaddr + info.phdrs[i].memsz < modulus
  }

  lemma SegmentIsPhdr(modulus: nat, loadBias: nat, phdr: Phdr, addr: nat)
    requires modulus > 0 && phdr.vaddr + phdr.memsz < modulus && addr >= loadBias
    ensures SegmentHas(modulus, phdr, addr - loadBias) <==> InPhdr(loadBias, phdr, addr)
  {
    SmallModulo(phdr.vaddr + phdr.memsz, modulus);
  }

  lemma IsInSegment(modulus: nat, info: Info, addr: nat)
    requires modulus > 0 && SegmentsFit(modulus, info)
    ensures IsIn(modulus, info, addr) <==> InSegment(info, addr)
  {
    forall i | 0 <= i < |info.phdrs| && addr >= info.addr
      ensures SegmentHas(modulus, info.phdrs[i], addr - info.addr) <==> InPhdr(info.addr, info.phdrs[i], addr)
    {
      SegmentIsPhdr(modulus, info.addr, info.phdrs[i], addr);
    }
  }

  /** The symbol as the answer gives it. */
  predicate Describes(s: Symbol, sym: Sym, strings: seq<Byte>, missing: SymName, loadBias: nat) {
    && s.name == (if sym.stName < |strings| then Name(CStr(strings[sym.stName..])) else missing)
    && s.addr == loadBias + sym.stValue && s.size == sym.stSize
  }

  /** A `.symtab` symbol in which the address lies, outside the reserved sections. */
  predicate DebugEncloses(sym: Sym, thumb: bool, loadBias: nat, addr: nat) {
    Search.Encloses(sym, thumb, loadBias, addr) && !(0xff00 <= sym.stShndx <= 0xffff)
  }

  /** The answer's symbol is the first of `.dynsym` in which the address lies; failing that, the first of
  `.symtab`; and there is none when there is neither. */
  ghost predicate SymbolFits(info: Info, addr: nat, symbol: Option<Symbol>) {
    var elf := info.image.elf;
    exists dyn: Option<nat> :: Search.FirstEnclosing(elf, info.addr, addr, dyn) &&
      if dyn.Some? then
        && dyn.value < |elf.dynsym| && symbol.Some?
        && Describes(symbol.value, elf.dynsym[dyn.value], elf.dynstr, DynstrOutOfBounds, info.addr)
      else DebugFits(info, addr, symbol)
  }

  ghost predicate DebugFits(info: Info, addr: nat, symbol: Option<Symbol>) {
    var syms, thumb := info.image.symtab, info.image.elf.thumb;
    if symbol.None? then forall i :: 0 <= i < |syms| ==> !DebugEncloses(syms[i], thumb, info.addr, addr)
    else
      exists k :: 0 <= k < |syms| && DebugEncloses(syms[k], thumb, info.addr, addr)
        && (forall i :: 0 <= i < k ==> !DebugEncloses(syms[i], thumb, info.addr, addr))
        && Describes(symbol.value, syms[k], info.image.strtab, StrtabOutOfBounds, info.addr)
  }

  predicate NothingWraps(info: Info, addr: nat)
    requires InfoOk(info)
  {
    && Search.NothingWraps(info.image.elf.bits, info.image.elf.dynsym, info.addr, addr)
    && Search.NothingWraps(info.image.elf.bits, info.image.symtab, info.addr, addr)
  }

  lemma DebugScanFits(info: Info, addr: nat)
    requires InfoOk(info) && NothingWraps(info, addr)
    ensures var elf, syms := info.image.elf, info.image.symtab;
            var offset := Search.OffsetOf(elf, addr, info.addr);
            forall i: nat :: i < |syms| ==>
              (DebugCovers(elf, syms, i, offset) <==> DebugEncloses(syms[i], elf.thumb, info.addr, addr))
  {
    var elf := info.image.elf.(dynsym := info.image.symtab);
    forall i: nat | i < |info.image.symtab|
      ensures elf.Covers(i, Search.OffsetOf(elf, addr, info.addr))
              <==> Search.Encloses(elf.dynsym[i], elf.thumb, info.addr, addr)
    {
      Search.CoversIsEncloses(elf, i, info.addr, addr);
    }
  }

  lemma ShownDescribes(elf: Elf, syms: seq<Sym>, i: nat, strings: seq<Byte>, missing: SymName, loadBias: nat, addr: nat)
    requires (elf.bits == 32 || elf.bits == 64) && i < |syms| && Search.NothingWraps(elf.bits, syms, loadBias, addr)
    ensures Describes(Shown(elf, syms[i], strings, missing, loadBias), syms[i], strings, missing, loadBias)
  {
    assert loadBias + syms[i].stValue + syms[i].stSize < WordModulus(elf.bits);
    SmallModulo(loadBias + syms[i].stValue, WordModulus(elf.bits));
  }

  lemma DebugSymbolFits(info: Info, addr: nat)
    requires InfoOk(info) && NothingWraps(info, addr)
    ensures var elf, syms := info.image.elf, info.image.symtab;
            var dbg := DebugScan(elf, syms, Search.OffsetOf(elf, addr, info.addr), 0);
            DebugFits(info, addr,
                      if dbg.None? then None
                      else Some(Shown(elf, syms[dbg.value], info.image.strtab, StrtabOutOfBounds, info.addr)))
  {
    var elf, syms := info.image.elf, info.image.symtab;
    var dbg := DebugScan(elf, syms, Search.OffsetOf(elf, addr, info.addr), 0);
    DebugScanFits(info, addr);
    if dbg.Some? {
      ShownDescribes(elf, syms, dbg.value, info.image.strtab, StrtabOutOfBounds, info.addr, addr);
    }
  }

  /** Where nothing wraps, the symbol of the answer is one in which the address lies. */
  lemma SymbolAtFits(info: Info, addr: nat)
    requires InfoOk(info) && NothingWraps(info, addr)
    ensures SymbolFits(info, addr, SymbolAt(info, addr))
  {
    var elf := info.image.elf;
    var dyn := Search.AddressScan(elf, Search.OffsetOf(elf, addr, info.addr));
    Search.ScanFindsEnclosing(elf, info.addr, addr);
    assert Search.FirstEnclosing(elf, info.addr, addr, dyn);
    if dyn.Some? {
      ShownDescribes(elf, elf.dynsym, dyn.value, elf.dynstr, DynstrOutOfBounds, info.addr, addr);
    } else {
      DebugSymbolFits(info, addr);
    }
  }

  /** So its own address and size enclose the address asked for, up to the low bit of thumb code. */
  lemma SymbolEncloses(info: Info, addr: nat, symbol: Option<Symbol>)
    requires SymbolFits(info, addr, symbol) && symbol.Some?
    ensures var odd := if info.image.elf.thumb then symbol.value.addr - info.addr else 0;
            symbol.value.addr - odd % 2 <= addr < symbol.value.addr - odd % 2 + symbol.value.size
  {
  }

  /** The answer from an empty cache. */
  function Uncached(p: Process, addr: nat, withSymbol: bool): Option<Answer>
    requires ProcessOk(p) && AllInfosOk(p)
  {
    if addr == 0 then None
    else
      var m := FirstWith(p.Modulus(), Delivered(p), addr);
      if m.None? then None else Some(AnswerIn(m.value, addr, withSymbol))
  }

  /** `info` is the module the address lies in, and the answer is about it. */
  ghost predicate IsAbout(info: Info, addr: nat, withSymbol: bool, a: Answer) {
    && info.addr != 0 && info.name.Some? && InSegment(info, addr)
    && a.fbase == info.addr && a.fname == info.name && a.phdrs == info.phdrs
    && (!withSymbol ==> a.symbol == None)
    && (withSymbol && InfoOk(info) && NothingWraps(info, addr) ==> SymbolFits(info, addr, a.symbol))
  }

  ghost predicate AllSegmentsFit(p: Process)
    requires ProcessOk(p)
  {
    forall info :: info in Delivered(p) ==> SegmentsFit(p.Modulus(), info)
  }

  /** What an answer means, in terms of the address and the modules' own fields. */
  ghost predicate AnswerMeans(p: Process, addr: nat, withSymbol: bool, answer: Option<Answer>)
    requires ProcessOk(p)
  {
    if answer.None? then
      addr == 0 || forall info :: info in Delivered(p) && info.addr != 0 && info.name.Some? ==> !InSegment(info, addr)
    else addr != 0 && exists info :: info in Delivered(p) && IsAbout(info, addr, withSymbol, answer.value)
  }

  lemma UncachedMeans(p: Process, addr: nat, withSymbol: bool)
    requires ProcessOk(p) && AllInfosOk(p) && AllSegmentsFit(p)
    ensures AnswerMeans(p, addr, withSymbol, Uncached(p, addr, withSymbol))
  {
    var m := FirstWith(p.Modulus(), Delivered(p), addr);
    forall info | info in Delivered(p) ensures IsIn(p.Modulus(), info, addr) <==> InSegment(info, addr) {
      IsInSegment(p.Modulus(), info, addr);
    }
    if addr != 0 && m.Some? {
      if NothingWraps(m.value, addr) {
        SymbolAtFits(m.value, addr);
      }
      assert IsAbout(m.value, addr, withSymbol, AnswerIn(m.value, addr, withSymbol));
    }
  }

  /** The method that fills in the symbol, given the module. */
  method FillIn(info: Info, addr: nat, withSymbol: bool) returns (a: Answer)
    requires InfoOk(info)
    ensures a == AnswerIn(info, addr, withSymbol)
  {
    var elf := info.image.elf;
    var symbol := None;
    if withSymbol {
      var dyn := Search.FindByAddress(elf, addr, info.addr);
      if dyn.Some? {
        var sym := elf.dynsym[dyn.value];
        symbol := Some(Symbol(
          if sym.stName < |elf.dynstr| then Name(CStr(elf.dynstr[sym.stName..])) else DynstrOutOfBounds,
          (info.addr + sym.stValue) % elf.Modulus(), sym.stSize));
      } else {
        var dbg := DebugFindByOffset(elf, info.image.symtab, Search.OffsetOf(elf, addr, info.addr));
        if dbg.Some? {
          var sym := info.image.symtab[dbg.value];
          symbol := Some(Symbol(
            if sym.stName < |info.image.strtab| then Name(CStr(info.image.strtab[sym.stName..])) else StrtabOutOfBounds,
            (info.addr + sym.stValue) % elf.Modulus(), sym.stSize));
        }
      }
    }
    return Answer(info.addr, info.name, info.phdrs, symbol);
  }

  // The cache

  /** An xdl_t made by xdl_addr4; `closes` counts the calls of xdl_close on it. */
  class Handle {
    const info: Info
    var next: Handle?
    var closes: nat

    constructor (info: Info, next: Handle?)
      ensures this.info == info && this.next == next && closes == 0
    {
      this.info := info;
      this.next := next;
      closes := 0;
    }

    method Close()
      requires closes == 0
      modifies this`closes
      ensures closes == 1
    {
      closes := closes + 1;
    }
  }

  /** The modules are told apart by their addresses. */
  ghost predicate Disjoint(p: Process)
    requires ProcessOk(p)
  {
    forall a, b, addr: nat ::
      a in Delivered(p) && b in Delivered(p) && IsIn(p.Modulus(), a, addr) && IsIn(p.Modulus(), b, addr) ==> a == b
  }

  /** Every handle is for a module of the process, and no two are for the same one. */
  ghost predicate ForModules(p: Process, handles: seq<Handle>)
    requires ProcessOk(p)
  {
    && (forall i :: 0 <= i < |handles| ==> handles[i].info in Delivered(p) && Openable(handles[i].info))
    && (forall i, j :: 0 <= i < j < |handles| ==> handles[i].info != handles[j].info)
  }

  lemma OneMoreModule(p: Process, handles: seq<Handle>, h: Handle)
    requires ProcessOk(p) && ForModules(p, handles)
    requires h.info in Delivered(p) && Openable(h.info)
    requires forall i :: 0 <= i < |handles| ==> handles[i].info != h.info
    ensures ForModules(p, [h] + handles)
  {
  }

  class Cache {
    var head: Handle?
    ghost var handles: seq<Handle>

    /** The link that leads to position `i`: null past the end. */
    ghost function LinkTo(i: nat): Handle?
      reads this
    {
      if i < |handles| then handles[i] else null
    }

    /** `handles` is the list that starts at `head`: it ends, and no handle is on it twice. */
    ghost predicate Linked()
      reads this, handles
    {
      && head == LinkTo(0)
      && (forall i: nat :: i < |handles| ==> handles[i].next == LinkTo(i + 1))
      && (forall i, j :: 0 <= i < j < |handles| ==> handles[i] != handles[j])
    }

    ghost predicate AllOpen()
      reads this, handles
    {
      forall i :: 0 <= i < |handles| ==> handles[i].closes == 0
    }

    ghost predicate Valid(p: Process)
      requires ProcessOk(p)
      reads this, handles
    {
      Linked() && AllOpen() && ForModules(p, handles)
    }

    /** Some handle on the list already is for the module that the address is in. */
    ghost predicate Hits(p: Process, addr: nat)
      requires ProcessOk(p)
      reads this
    {
      exists i :: 0 <= i < |handles| && IsIn(p.Modulus(), handles[i].info, addr)
    }

    constructor ()
      ensures handles == [] && Linked()
    {
      head := null;
      handles := [];
    }

    method FindHandle(p: Process, addr: nat) returns (h: Handle?)
      requires ProcessOk(p) && Linked()
      ensures h != null ==> h in handles && IsIn(p.Modulus(), h.info, addr)
      ensures h != null <==> Hits(p, addr)
    {
      h := head;
      ghost var k: nat := 0;
      while h != null
        invariant k <= |handles| && h == LinkTo(k)
        invariant forall i :: 0 <= i < k ==> !IsIn(p.Modulus(), handles[i].info, addr)
        decreases |handles| - k
      {
        assert h == handles[k];
        var hit := ElfIsMatch(p.Modulus(), h.info, addr);
        if hit {
          return;
        }
        h := h.next;
        k := k + 1;
      }
    }

    method Push(info: Info) returns (h: Handle)
      requires Linked() && AllOpen()
      modifies this
      ensures Linked() && AllOpen()
      ensures fresh(h) && h.info == info && handles == [h] + old(handles)
    {
      ghost var before := handles;
      h := new Handle(info, head);
      head := h;
      handles := [h] + handles;
      assert h !in before;
      forall i: nat | i < |handles| ensures handles[i].next == LinkTo(i + 1) && handles[i].closes == 0 {
        if i > 0 {
          assert handles[i] == before[i - 1] && before[i - 1].next == old(LinkTo(i));
        }
      }
    }

    /** A miss: a handle for the module is put in front of the list. */
    method Open(p: Process, addr: nat) returns (h: Handle?)
      requires ProcessOk(p) && Valid(p) && addr != 0 && !Hits(p, addr)
      modifies this
      ensures Valid(p)
      ensures var m := FirstWith(p.Modulus(), Delivered(p), addr);
              if m.None? then h == null && handles == old(handles)
              else h != null && fresh(h) && h.info == m.value && handles == [h] + old(handles)
    {
      var found := OpenByAddr(p, addr);
      if found.None? {
        return null;
      }
      ghost var before := handles;
      assert forall i :: 0 <= i < |before| ==> before[i].info != found.value;
      h := Push(found.value);
      OneMoreModule(p, before, h);
    }

    /** The handle for an address, from the list or new in front of it; null when no module has the address. */
    method HandleFor(p: Process, addr: nat) returns (h: Handle?)
      requires ProcessOk(p) && Disjoint(p) && Valid(p) && addr != 0
      modifies this
      ensures Valid(p)
      ensures h == null <==> FirstWith(p.Modulus(), Delivered(p), addr).None?
      ensures h != null ==> Some(h.info) == FirstWith(p.Modulus(), Delivered(p), addr)
      ensures old(Hits(p, addr)) || h == null ==> handles == old(handles)
      ensures !old(Hits(p, addr)) && h != null ==> fresh(h) && handles == [h] + old(handles)
    {
      h := FindHandle(p, addr);
      if h == null {
        h := Open(p, addr);
      } else {
        HitIsFirst(p, h.info, addr);
      }
    }

    /** xdl_addr4. The answer is the one an empty cache gives; a hit or a failure leaves the list alone, and
    a miss puts one new handle in front of it. */
    method Addr4(p: Process, addr: nat, withSymbol: bool) returns (answer: Option<Answer>)
      requires ProcessOk(p) && Disjoint(p) && AllInfosOk(p) && Valid(p)
      modifies this
      ensures Valid(p)
      ensures answer == Uncached(p, addr, withSymbol)
      ensures AllSegmentsFit(p) ==> AnswerMeans(p, addr, withSymbol, answer)
      ensures addr == 0 || old(Hits(p, addr)) || answer.None? ==> handles == old(handles)
      ensures addr != 0 && !old(Hits(p, addr)) && answer.Some? ==>
                && |handles| > 0 && fresh(handles[0]) && handles == [handles[0]] + old(handles)
                && Some(handles[0].info) == FirstWith(p.Modulus(), Delivered(p), addr)
    {
      if AllSegmentsFit(p) {
        UncachedMeans(p, addr, withSymbol);
      }
      if addr == 0 {
        return None;
      }
      var h := HandleFor(p, addr);
      if h == null {
        return None;
      }
      var a := FillIn(h.info, addr, withSymbol);
      return Some(a);
    }

    /** xdl_addr_clean: each handle of the list is closed exactly once. */
    method Clean()
      requires Linked() && AllOpen()
      modifies this, handles
      ensures head == null && handles == []
      ensures forall h :: h in old(handles) ==> h.closes == 1
    {
      var h := head;
      ghost var k: nat := 0;
      while h != null
        invariant k <= |handles| && handles == old(handles) && h == LinkTo(k)
        invariant Linked()
        invariant forall i :: 0 <= i < |handles| ==> handles[i].closes == if i < k then 1 else 0
        decreases |handles| - k
      {
        var tmp := h;
        assert tmp == handles[k];
        h := h.next;
        tmp.Close();
        k := k + 1;
      }
      head := null;
      handles := [];
    }
  }

  /** With modules told apart by their addresses, a cached module an address is in is the one a search finds. */
  lemma HitIsFirst(p: Process, info: Info, addr: nat)
    requires ProcessOk(p) && Disjoint(p)
    requires info in Delivered(p) && Openable(info) && IsIn(p.Modulus(), info, addr)
    ensures FirstWith(p.Modulus(), Delivered(p), addr) == Some(info)
  {
    var m := FirstWith(p.Modulus(), Delivered(p), addr);
    assert m.Some?;
    assert IsIn(p.Modulus(), m.value, addr);
  }

  /** What a caller does with one cache. */
  datatype Use = Ask(addr: nat, withSymbol: bool) | CleanUp

  /** The answers that calls starting from an empty cache give. */
  function AllUncached(p: Process, uses: seq<Use>): seq<Option<Answer>>
    requires ProcessOk(p) && AllInfosOk(p)
  {
    if uses == [] then []
    else
      var last := uses[|uses| - 1];
      AllUncached(p, uses[..|uses| - 1]) + if last.Ask? then [Uncached(p, last.addr, last.withSymbol)] else []
  }

  lemma OneMoreUse(p: Process, uses: seq<Use>, k: nat)
    requires ProcessOk(p) && AllInfosOk(p) && k < |uses|
    ensures AllUncached(p, uses[..k + 1]) == AllUncached(p, uses[..k]) + AllUncached(p, [uses[k]])
  {
    assert uses[..k + 1][..k] == uses[..k] && [uses[k]][..0] == [];
  }

  /** One use of a cache. */
  method Serve(cache: Cache, p: Process, use: Use) returns (answers: seq<Option<Answer>>)
    requires ProcessOk(p) && Disjoint(p) && AllInfosOk(p) && cache.Valid(p)
    modifies cache, cache.handles
    ensures cache.Valid(p) && answers == AllUncached(p, [use])
    ensures forall i :: 0 <= i < |cache.handles| ==> cache.handles[i] in old(cache.handles) || fresh(cache.handles[i])
  {
    assert [use][..0] == [];
    match use
    case Ask(addr, withSymbol) =>
      var answer := cache.Addr4(p, addr, withSymbol);
      return [answer];
    case CleanUp =>
      cache.Clean();
      return [];
  }

  /** Any sequence of calls on one cache, with or without symbols and with the cache cleaned in between,
  answers as if each call started from an empty one. */
  method Session(p: Process, uses: seq<Use>) returns (answers: seq<Option<Answer>>)
    requires ProcessOk(p) && Disjoint(p) && AllInfosOk(p)
    ensures answers == AllUncached(p, uses)
  {
    var cache := new Cache();
    answers := [];
    for k := 0 to |uses|
      invariant fresh(cache) && cache.Valid(p)
      invariant forall i :: 0 <= i < |cache.handles| ==> fresh(cache.handles[i])
      invariant answers == AllUncached(p, uses[..k])
    {
      var more := Serve(cache, p, uses[k]);
      answers := answers + more;
      OneMoreUse(p, uses, k);
    }
    assert uses[..|uses|] == uses;
  }
}
