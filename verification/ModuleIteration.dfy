/** Enumerating the ELF files of the process: the dynamic linker first, found through the auxiliary
vector, then whatever dl_iterate_phdr reports, until a callback returns non-zero. */
module ModuleIteration {
  import opened CStrings
  import opened Sequences
  import opened SymbolTable
  import opened Words
  import opened Wrappers

  datatype Phdr = Phdr(isLoad: bool, vaddr: nat, memsz: nat)

  /** What lies behind a load address: the tables in its memory, and `.symtab` with its strings. */
  datatype Image = Image(elf: Elf, symtab: seq<Sym>, strtab: seq<Byte>)

  /** dl_phdr_info, with the image found at `addr`. */
  datatype Info = Info(addr: nat, name: Option<CString>, phdrs: seq<Phdr>, image: Image)

  /** A module as dl_iterate_phdr reports it, and the program headers its own ELF header points to. */
  datatype Reported = Reported(info: Info, headerPhdrs: seq<Phdr>)

  /** The ELF file at AT_BASE. */
  datatype Linker = Linker(base: nat, pathname: CString, phdrs: seq<Phdr>, image: Image)

  datatype Process = Process(bits: nat, linker: Option<Linker>, reported: seq<Reported>)
  {
    function Modulus(): nat
      requires bits == 32 || bits == 64
    {
      WordModulus(bits)
    }
  }

  predicate ProcessOk(p: Process) {
    p.bits == 32 || p.bits == 64
  }

  /** The least PT_LOAD address, and the largest word when there is none. */
  function MinVaddr(phdrs: seq<Phdr>, none: nat): (r: nat)
    ensures r <= none
    ensures forall i :: 0 <= i < |phdrs| && phdrs[i].isLoad ==> r <= phdrs[i].vaddr
    ensures r < none ==> exists i :: 0 <= i < |phdrs| && phdrs[i].isLoad && r == phdrs[i].vaddr
  {
    if phdrs == [] then none
    else
      var last := phdrs[|phdrs| - 1];
      var r := MinVaddr(phdrs[..|phdrs| - 1], none);
      if last.isLoad && r > last.vaddr then last.vaddr else r
  }

  method ComputeMinVaddr(phdrs: seq<Phdr>, none: nat) returns (r: nat)
    ensures r == MinVaddr(phdrs, none)
  {
    r := none;
    for i := 0 to |phdrs|
      invariant r == MinVaddr(phdrs[..i], none)
    {
      assert phdrs[..i + 1][..i] == phdrs[..i];
      if phdrs[i].isLoad {
        if r > phdrs[i].vaddr {
          r := phdrs[i].vaddr;
        }
      }
    }
    assert phdrs[..|phdrs|] == phdrs;
  }

  /** The info a callback gets for the linker; none for a file without PT_LOAD. */
  function LinkerInfo(p: Process): Option<Info>
    requires ProcessOk(p)
  {
    if p.linker.None? || p.linker.value.base == 0 then None
    else
      var l := p.linker.value;
      var min := MinVaddr(l.phdrs, p.Modulus() - 1);
      if min == p.Modulus() - 1 then None
      else Some(Info((l.base - min) % p.Modulus(), Some(l.pathname), l.phdrs, l.image))
  }

  function LinkerBias(p: Process): nat
    requires ProcessOk(p)
  {
    if LinkerInfo(p).Some? then LinkerInfo(p).value.addr else 0
  }

  predicate Passes(p: Process, m: Reported)
    requires ProcessOk(p)
  {
    && m.info.addr != 0 && m.info.name.Some? && m.info.name.value != []
    && m.info.addr != LinkerBias(p)
  }

  function Fixed(m: Reported): Info {
    if m.info.phdrs == [] then m.info.(phdrs := m.headerPhdrs) else m.info
  }

  function OtherInfos(p: Process, reported: seq<Reported>): seq<Info>
    requires ProcessOk(p)
  {
    if reported == [] then []
    else (if Passes(p, reported[0]) then [Fixed(reported[0])] else []) + OtherInfos(p, reported[1..])
  }

  /** Everything a callback that never stops is given, in order. */
  function Delivered(p: Process): seq<Info>
    requires ProcessOk(p)
  {
    (if LinkerInfo(p).Some? then [LinkerInfo(p).value] else []) + OtherInfos(p, p.reported)
  }

  // What is delivered, in terms of the process alone

  /** Segment `i` is a PT_LOAD segment with the least address. */
  predicate IsLowest(phdrs: seq<Phdr>, i: nat) {
    && i < |phdrs| && phdrs[i].isLoad
    && forall j :: 0 <= j < |phdrs| && phdrs[j].isLoad ==> phdrs[i].vaddr <= phdrs[j].vaddr
  }

  lemma MinIsLowest(phdrs: seq<Phdr>, none: nat) returns (i: nat)
    requires MinVaddr(phdrs, none) < none
    ensures IsLowest(phdrs, i) && phdrs[i].vaddr == MinVaddr(phdrs, none)
  {
    i :| 0 <= i < |phdrs| && phdrs[i].isLoad && MinVaddr(phdrs, none) == phdrs[i].vaddr;
  }

  /** The linker is given when it is there and has a segment to load, below the largest word. */
  lemma LinkerIsGiven(p: Process)
    requires ProcessOk(p)
    ensures LinkerInfo(p).Some? <==>
              && p.linker.Some? && p.linker.value.base != 0
              && exists i :: 0 <= i < |p.linker.value.phdrs| && p.linker.value.phdrs[i].isLoad
                             && p.linker.value.phdrs[i].vaddr < p.Modulus() - 1
  {
    if p.linker.Some? && MinVaddr(p.linker.value.phdrs, p.Modulus() - 1) < p.Modulus() - 1 {
      var i := MinIsLowest(p.linker.value.phdrs, p.Modulus() - 1);
    }
  }

  /** It is loaded so that its lowest segment is at its base: the load bias and that segment's address add up
  to the base, modulo the word. */
  lemma LinkerInfoIs(p: Process) returns (i: nat)
    requires ProcessOk(p) && LinkerInfo(p).Some?
    ensures var l, info := p.linker.value, LinkerInfo(p).value;
            && info.name == Some(l.pathname) && info.phdrs == l.phdrs && info.image == l.image
            && IsLowest(l.phdrs, i) && info.addr == (l.base - l.phdrs[i].vaddr) % WordModulus(p.bits)
  {
    i := MinIsLowest(p.linker.value.phdrs, p.Modulus() - 1);
  }

  /** A reported module that is valid and is not the linker over again. */
  predicate IsValid(p: Process, m: Reported)
    requires ProcessOk(p)
  {
    && m.info.addr != 0 && m.info.name.Some? && |m.info.name.value| > 0
    && (LinkerInfo(p).Some? ==> m.info.addr != LinkerInfo(p).value.addr)
  }

  /** What is delivered for it: its headers are those reported, or those its file header points to when none are. */
  predicate IsDeliveredFor(info: Info, m: Reported) {
    && info.addr == m.info.addr && info.name == m.info.name && info.image == m.info.image
    && (|m.info.phdrs| > 0 ==> info.phdrs == m.info.phdrs)
    && (|m.info.phdrs| == 0 ==> info.phdrs == m.headerPhdrs)
  }

  /** After the linker, exactly the valid modules are delivered, one for each and in the order reported. */
  lemma {:induction false} OthersAreValid(p: Process, reported: seq<Reported>) returns (at: seq<nat>)
    requires ProcessOk(p)
    ensures |at| == |OtherInfos(p, reported)| && forall j, k :: 0 <= j < k < |at| ==> at[j] < at[k]
    ensures forall k :: 0 <= k < |at| ==>
              at[k] < |reported| && IsDeliveredFor(OtherInfos(p, reported)[k], reported[at[k]])
    ensures forall i: nat :: i in at <==> i < |reported| && IsValid(p, reported[i])
  {
    at := FilterKeepsOrder(ThosePassing(p), reported);
    OthersAreFixed(p, reported);
  }

  function ThosePassing(p: Process): Reported -> bool
    requires ProcessOk(p)
  {
    (m: Reported) => Passes(p, m)
  }

  lemma {:induction false} OthersAreFixed(p: Process, reported: seq<Reported>)
    requires ProcessOk(p)
    ensures var valid := Filter(ThosePassing(p), reported);
            && |OtherInfos(p, reported)| == |valid|
            && forall k :: 0 <= k < |valid| ==> OtherInfos(p, reported)[k] == Fixed(valid[k])
  {
    if reported != [] {
      OthersAreFixed(p, reported[1..]);
    }
  }

  /** A callback with its state: the new state and the value it returns; non-zero ends the iteration. */
  type Callback<!S> = (S, Info) -> (S, int)

  function Feed<S>(cb: Callback<S>, s: S, infos: seq<Info>): (S, int)
    decreases |infos|
  {
    if infos == [] then (s, 0)
    else
      var (next, ret) := cb(s, infos[0]);
      if ret != 0 then (next, ret) else Feed(cb, next, infos[1..])
  }

  lemma {:induction false} FeedAppend<S>(cb: Callback<S>, s: S, a: seq<Info>, b: seq<Info>)
    ensures var (mid, ret) := Feed(cb, s, a);
            Feed(cb, s, a + b) == if ret != 0 then (mid, ret) else Feed(cb, mid, b)
    decreases |a|
  {
    if a == [] {
      assert a + b == b;
    } else {
      assert (a + b)[1..] == a[1..] + b;
      var (next, ret) := cb(s, a[0]);
      if ret == 0 {
        FeedAppend(cb, next, a[1..], b);
      }
    }
  }

  method IterateReported<S>(p: Process, cb: Callback<S>, s: S) returns (end: S, ret: int)
    requires ProcessOk(p)
    ensures (end, ret) == Feed(cb, s, OtherInfos(p, p.reported))
  {
    end, ret := s, 0;
    for i := 0 to |p.reported|
      invariant ret == 0
      invariant Feed(cb, end, OtherInfos(p, p.reported[i..])) == Feed(cb, s, OtherInfos(p, p.reported))
    {
      var m := p.reported[i];
      assert p.reported[i..][1..] == p.reported[i + 1..];
      if Passes(p, m) {
        var infos := OtherInfos(p, p.reported[i..]);
        assert infos[0] == Fixed(m) && infos[1..] == OtherInfos(p, p.reported[i + 1..]);
        var (next, r) := cb(end, Fixed(m));
        end, ret := next, r;
        if ret != 0 {
          return;
        }
      } else {
        assert OtherInfos(p, p.reported[i..]) == OtherInfos(p, p.reported[i + 1..]);
      }
    }
    assert OtherInfos(p, p.reported[|p.reported|..]) == [];
  }

  /** xdl_iterate_by_linker: the callback sees the delivered infos in order up to the one it stops at. */
  method IterateByLinker<S>(p: Process, cb: Callback<S>, s: S) returns (end: S, ret: int)
    requires ProcessOk(p)
    ensures (end, ret) == Feed(cb, s, Delivered(p))
  {
    end := s;
    var linker := LinkerInfo(p);
    if linker.Some? {
      var (next, r) := cb(end, linker.value);
      FeedAppend(cb, s, [linker.value], OtherInfos(p, p.reported));
      end, ret := next, r;
      if ret != 0 {
        return;
      }
    } else {
      assert Delivered(p) == OtherInfos(p, p.reported);
    }
    end, ret := IterateReported(p, cb, end);
  }

  lemma {:induction false} OthersAreNotLinker(p: Process, reported: seq<Reported>)
    requires ProcessOk(p)
    ensures forall info :: info in OtherInfos(p, reported) ==>
        info.addr != 0 && info.name.Some? && info.addr != LinkerBias(p)
  {
    if reported != [] {
      OthersAreNotLinker(p, reported[1..]);
    }
  }

  /** The linker is delivered once: wherever its load bias stands in what a callback is given, it stands at
  the front, whether or not the linker reports itself too. */
  lemma LinkerDeliveredOnce(p: Process, i: nat)
    requires ProcessOk(p) && LinkerInfo(p).Some? && i < |Delivered(p)|
    ensures Delivered(p)[i].addr == LinkerInfo(p).value.addr <==> i == 0
  {
    OthersAreNotLinker(p, p.reported);
    if i > 0 {
      assert Delivered(p)[i] == OtherInfos(p, p.reported)[i - 1];
      assert Delivered(p)[i] in OtherInfos(p, p.reported);
    }
  }
}
