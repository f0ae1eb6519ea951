/** The mitigation classifiers of the `Properties` impl for an ELF file:
    architecture label, base address, RELRO, stack canary, NX, PIE and
    FORTIFY, over an abstract view of the metadata the ELF parser produces. */
module Elf {
  import Wrappers
  import Strings

  type u16 = x: int | 0 <= x < 0x1_0000
  type u32 = x: int | 0 <= x < 0x1_0000_0000
  type u64 = x: int | 0 <= x < 0x1_0000_0000_0000_0000

  // ELF header file types (System V gABI, chapter 4 "ELF Header").
  const ET_REL: u16 := 1
  const ET_EXEC: u16 := 2
  const ET_DYN: u16 := 3

  // Segment types and flags (gABI chapter 5 "Program Header", GNU extensions).
  const PT_LOAD: u32 := 1
  const PT_GNU_STACK: u32 := 0x6474_e551
  const PT_GNU_RELRO: u32 := 0x6474_e552
  const PF_X: u32 := 1
  const PF_W: u32 := 2
  const PF_R: u32 := 4

  // Dynamic tags and flag bits (gABI chapter 5 "Dynamic Section", GNU extensions).
  const DT_BIND_NOW: u64 := 24
  const DT_FLAGS: u64 := 30
  const DT_FLAGS_1: u64 := 0x6fff_fffb
  const DF_BIND_NOW: bv64 := 0x8
  const DF_1_NOW: bv64 := 0x1
  const DF_1_PIE: bv64 := 0x0800_0000

  datatype ProgramHeader = ProgramHeader(pType: u32, pFlags: u32, pVaddr: u64)

  datatype Dyn = Dyn(dTag: u64, dVal: bv64)

  /** The dynamic section: its entries in file order, and the `DT_FLAGS_1`
      word the parser derives separately (`info.flags_1`). Nothing ties
      `flags1` to the entries in `dyns`. */
  datatype Dynamic = Dynamic(dyns: seq<Dyn>, flags1: bv64)

  /** The parsed file as the classifiers see it. `machineName` and
      `className` are the parser's names for `e_machine` and
      `e_ident[EI_CLASS]`; `dynStrings` is the dynamic string table's names,
      `None` when the table cannot be read. */
  datatype Elf = Elf(
    eType: u16,
    machineName: string,
    className: string,
    littleEndian: bool,
    programHeaders: seq<ProgramHeader>,
    dynamic: Wrappers.Option<Dynamic>,
    dynStrings: Wrappers.Option<seq<string>>)

  datatype Relro = None | Partial | Full

  datatype Pie = None | PIE | DSO | REL

  predicate HasSegment(phs: seq<ProgramHeader>, pType: u32)
  {
    exists h :: h in phs && h.pType == pType
  }

  // ---------------------------------------------------------------- arch

  function EndianName(littleEndian: bool): (r: string)
  {
    if littleEndian then "little" else "big"
  }

  /** Machine, class with every "ELF" removed, and byte order, joined by "-":
      the label begins with the machine name and ends with the byte order. */
  function Arch(elf: Elf): (r: string)
    ensures Strings.StartsWith(r, elf.machineName + "-")
    ensures Strings.EndsWith(r, "-" + EndianName(elf.littleEndian))
  {
    var cls := Strings.RemoveAll(elf.className, "ELF");
    var endian := EndianName(elf.littleEndian);
    Strings.JoinThree(elf.machineName, cls, endian, "-");
    assert (elf.machineName + "-" + cls + "-" + endian)[..|elf.machineName| + 1] == elf.machineName + "-";
    Strings.Join([elf.machineName, cls, endian], "-")
  }

  /** The label has three dash-separated parts, and ends in "little"
      exactly for little-endian files. */
  lemma ArchLayout(elf: Elf)
    ensures Arch(elf) == elf.machineName + "-" + Strings.RemoveAll(elf.className, "ELF") + "-"
                         + (if elf.littleEndian then "little" else "big")
    ensures elf.littleEndian <==> Strings.EndsWith(Arch(elf), "little")
  {
    var cls := Strings.RemoveAll(elf.className, "ELF");
    Strings.JoinThree(elf.machineName, cls, EndianName(elf.littleEndian), "-");
    var r := Arch(elf);
    if !elf.littleEndian && |r| >= 6 {
      assert r[|r| - 6..][5] == 'g';
    }
  }

  /** Removing "ELF" from the literal strings "ELF32", "ELF64" and
      "ELFCLASSNONE" leaves "32", "64" and "CLASSNONE". */
  lemma ClassNames()
    ensures Strings.RemoveAll("ELF32", "ELF") == "32"
    ensures Strings.RemoveAll("ELF64", "ELF") == "64"
    ensures Strings.RemoveAll("ELFCLASSNONE", "ELF") == "CLASSNONE"
  {
    assert "ELF32" == "ELF" + "32";
    Strings.RemoveAllPrefix("32", "ELF");
    assert Strings.RemoveAll("32", "ELF") == "32";
    assert "ELF64" == "ELF" + "64";
    Strings.RemoveAllPrefix("64", "ELF");
    assert Strings.RemoveAll("64", "ELF") == "64";
    assert "ELFCLASSNONE" == "ELF" + "CLASSNONE";
    Strings.RemoveAllPrefix("CLASSNONE", "ELF");
    NoElfInClassNone();
  }

  lemma NoElfInClassNone()
    ensures Strings.RemoveAll("CLASSNONE", "ELF") == "CLASSNONE"
  {
    var s := "CLASSNONE";
    forall i: nat ensures !Strings.OccursAt(s, "ELF", i) {
      if i + 3 <= |s| {
        assert s[i..i + 3][0] == s[i];
        assert s[i] != 'E';
      }
    }
    Strings.RemoveAllAbsent(s, "ELF");
  }

  // ------------------------------------------------------------- address

  /** The virtual addresses of the `PT_LOAD` headers, in header order. */
  function LoadVaddrs(phs: seq<ProgramHeader>): (vs: seq<u64>)
    decreases |phs|
  {
    if phs == [] then []
    else
      var h := phs[|phs| - 1];
      LoadVaddrs(phs[..|phs| - 1]) + (if h.pType == PT_LOAD then [h.pVaddr] else [])
  }

  /** The collected addresses are exactly those of the `PT_LOAD` headers. */
  lemma {:induction false} LoadVaddrsMembers(phs: seq<ProgramHeader>)
    ensures forall v :: v in LoadVaddrs(phs) <==> exists h :: h in phs && h.pType == PT_LOAD && h.pVaddr == v
    decreases |phs|
  {
    if phs != [] {
      var prefix, h := phs[..|phs| - 1], phs[|phs| - 1];
      assert phs == prefix + [h];
      LoadVaddrsMembers(prefix);
    }
  }

  /** One more header adds its address when it is a `PT_LOAD`. */
  lemma LoadVaddrsSnoc(phs: seq<ProgramHeader>, h: ProgramHeader)
    ensures LoadVaddrs(phs + [h]) == LoadVaddrs(phs) + (if h.pType == PT_LOAD then [h.pVaddr] else [])
  {
    assert (phs + [h])[..|phs|] == phs;
  }

  /** The same, for a prefix of the headers growing by one. */
  lemma LoadVaddrsPrefix(phs: seq<ProgramHeader>, i: nat)
    requires i < |phs|
    ensures LoadVaddrs(phs[..i + 1])
            == LoadVaddrs(phs[..i]) + (if phs[i].pType == PT_LOAD then [phs[i].pVaddr] else [])
  {
    assert phs[..i + 1] == phs[..i] + [phs[i]];
    LoadVaddrsSnoc(phs[..i], phs[i]);
  }

  /** The longest run at the end of `vs` that holds no zero. */
  function SinceLastZero(vs: seq<u64>): (tail: seq<u64>)
    ensures |tail| <= |vs| && tail == vs[|vs| - |tail|..]
    ensures 0 !in tail
    ensures 0 !in vs ==> tail == vs
    decreases |vs|
  {
    if vs == [] then []
    else if vs[|vs| - 1] == 0 then []
    else SinceLastZero(vs[..|vs| - 1]) + [vs[|vs| - 1]]
  }

  function Min(vs: seq<u64>): (m: u64)
    requires vs != []
    ensures m in vs && forall v :: v in vs ==> m <= v
    decreases |vs|
  {
    if |vs| == 1 then vs[0]
    else
      var prefix, last := vs[..|vs| - 1], vs[|vs| - 1];
      var m := Min(prefix);
      assert forall v :: v in vs ==> v in prefix || v == last by {
        assert vs == prefix + [last];
      }
      if last < m then last else m
  }

  /** The base address a run of load addresses yields: the smallest address
      after the last zero one, or 0 when a zero address comes last or there
      is no address at all. A zero address restarts the search. */
  function BaseAddress(vs: seq<u64>): (a: u64)
    ensures a == 0 || a in vs
  {
    var tail := SinceLastZero(vs);
    if tail == [] then 0 else Min(tail)
  }

  /** The base address reported for `elf`: 0 for a shared object. */
  function AddressOf(elf: Elf): (a: u64)
    ensures elf.eType == ET_DYN ==> a == 0
    ensures a == 0 || exists h :: h in elf.programHeaders && h.pType == PT_LOAD && h.pVaddr == a
  {
    if elf.eType == ET_DYN then 0
    else
      LoadVaddrsMembers(elf.programHeaders);
      BaseAddress(LoadVaddrs(elf.programHeaders))
  }

  /** One more load address moves the base address as one step of the scan
      does: it takes the new address when that is smaller or when the base
      is still 0. */
  lemma BaseAddressStep(vs: seq<u64>, v: u64)
    ensures BaseAddress(vs + [v]) == if v < BaseAddress(vs) || BaseAddress(vs) == 0 then v else BaseAddress(vs)
  {
    assert (vs + [v])[..|vs|] == vs;
    var tail := SinceLastZero(vs);
    if v != 0 && tail != [] {
      assert SinceLastZero(vs + [v]) == tail + [v];
      assert (tail + [v])[..|tail|] == tail;
    }
  }

  /** The scan of `address`: the smallest `PT_LOAD` address, where a 0 in
      the running value lets the next `PT_LOAD` replace it whatever its
      address; shared objects are not scanned. */
  method Address(elf: Elf) returns (addr: u64)
    ensures addr == AddressOf(elf)
  {
    addr := 0;
    if elf.eType != ET_DYN {
      var phs := elf.programHeaders;
      assert phs[..0] == [];
      for i := 0 to |phs|
        invariant addr == BaseAddress(LoadVaddrs(phs[..i]))
      {
        var header := phs[i];
        ghost var seen := LoadVaddrs(phs[..i]);
        LoadVaddrsPrefix(phs, i);
        if header.pType == PT_LOAD {
          BaseAddressStep(seen, header.pVaddr);
        } else {
          assert seen + [] == seen;
        }
        if header.pType == PT_LOAD && (header.pVaddr < addr || addr == 0) {
          addr := header.pVaddr;
        }
      }
      assert phs[..|phs|] == phs;
    }
  }

  /** Without a `PT_LOAD` header the base address is 0. */
  lemma AddressWithoutLoad(elf: Elf)
    requires !HasSegment(elf.programHeaders, PT_LOAD)
    ensures AddressOf(elf) == 0
  {
    var vs := LoadVaddrs(elf.programHeaders);
    LoadVaddrsMembers(elf.programHeaders);
    if vs != [] {
      assert vs[0] in vs;
    }
  }

  /** When no `PT_LOAD` address is 0, a file that is not a shared object
      reports the smallest `PT_LOAD` address. */
  lemma AddressIsMinimumLoad(elf: Elf)
    requires elf.eType != ET_DYN
    requires HasSegment(elf.programHeaders, PT_LOAD)
    requires forall h :: h in elf.programHeaders && h.pType == PT_LOAD ==> h.pVaddr != 0
    ensures exists h :: h in elf.programHeaders && h.pType == PT_LOAD && h.pVaddr == AddressOf(elf)
    ensures forall h :: h in elf.programHeaders && h.pType == PT_LOAD ==> AddressOf(elf) <= h.pVaddr
  {
    var vs := LoadVaddrs(elf.programHeaders);
    LoadVaddrsMembers(elf.programHeaders);
    var h :| h in elf.programHeaders && h.pType == PT_LOAD;
    assert h.pVaddr in vs;
    assert SinceLastZero(vs) == vs;
    assert AddressOf(elf) == Min(vs);
    forall g | g in elf.programHeaders && g.pType == PT_LOAD
      ensures AddressOf(elf) <= g.pVaddr
    {
      assert g.pVaddr in vs;
    }
  }

  /** A `PT_LOAD` at address 0 discards the addresses before it: the result
      is neither the smallest address (0) nor the smallest non-zero one. */
  lemma AddressNotPlainMinimum()
    ensures var elf := Elf(ET_EXEC, "X86_64", "ELF64", true,
                           [ProgramHeader(PT_LOAD, PF_R, 0x40_0000),
                            ProgramHeader(PT_LOAD, PF_R, 0),
                            ProgramHeader(PT_LOAD, PF_R, 0x60_0000)],
                           Wrappers.None, Wrappers.None);
            AddressOf(elf) == 0x60_0000
  {
    var phs := [ProgramHeader(PT_LOAD, PF_R, 0x40_0000),
                ProgramHeader(PT_LOAD, PF_R, 0),
                ProgramHeader(PT_LOAD, PF_R, 0x60_0000)];
    LoadVaddrsSnoc([], phs[0]);
    LoadVaddrsSnoc([phs[0]], phs[1]);
    LoadVaddrsSnoc([phs[0], phs[1]], phs[2]);
    assert [] + [phs[0]] == [phs[0]];
    assert [phs[0]] + [phs[1]] == [phs[0], phs[1]];
    assert [phs[0], phs[1]] + [phs[2]] == phs;
    var vs := [0x40_0000, 0, 0x60_0000];
    assert LoadVaddrs(phs) == vs;
    assert vs[..2] == [0x40_0000, 0];
    assert SinceLastZero(vs) == [0x60_0000];
  }

  // --------------------------------------------------------------- RELRO

  /** An entry that asks for eager binding: `DT_BIND_NOW` with any value,
      `DT_FLAGS` with `DF_BIND_NOW`, or `DT_FLAGS_1` with `DF_1_NOW`. */
  predicate BindsNow(d: Dyn)
  {
    || d.dTag == DT_BIND_NOW
    || (d.dTag == DT_FLAGS && d.dVal & DF_BIND_NOW != 0)
    || (d.dTag == DT_FLAGS_1 && d.dVal & DF_1_NOW != 0)
  }

  /** The dynamic section is present and some entry binds eagerly. */
  predicate BindsNowIn(dynamic: Wrappers.Option<Dynamic>)
  {
    dynamic.Some? && exists d :: d in dynamic.value.dyns && BindsNow(d)
  }

  /** RELRO strength: none without a `PT_GNU_RELRO` segment, full when the
      dynamic section also asks for eager binding, partial otherwise. */
  function RelroOf(elf: Elf): (r: Relro)
  {
    if !HasSegment(elf.programHeaders, PT_GNU_RELRO) then Relro.None
    else if BindsNowIn(elf.dynamic) then Relro.Full
    else Relro.Partial
  }

  /** The scan of `has_relro`: for each `PT_GNU_RELRO` header, look through
      the dynamic entries and stop at the first eager-binding one. */
  method HasRelro(elf: Elf) returns (r: Relro)
    ensures r == RelroOf(elf)
  {
    var phs := elf.programHeaders;
    var flag := false;
    for i := 0 to |phs|
      invariant flag <==> exists k :: 0 <= k < i && phs[k].pType == PT_GNU_RELRO
      invariant flag ==> !BindsNowIn(elf.dynamic)
    {
      var header := phs[i];
      if header.pType == PT_GNU_RELRO {
        flag := true;
        if elf.dynamic.Some? {
          var dyns := elf.dynamic.value.dyns;
          for j := 0 to |dyns|
            invariant forall k :: 0 <= k < j ==> !BindsNow(dyns[k])
          {
            var d := dyns[j];
            assert header in phs && d in dyns;
            if d.dTag == DT_BIND_NOW {
              return Relro.Full;
            } else if d.dTag == DT_FLAGS {
              if d.dVal & DF_BIND_NOW != 0 {
                return Relro.Full;
              }
            } else if d.dTag == DT_FLAGS_1 {
              if d.dVal & DF_1_NOW != 0 {
                return Relro.Full;
              }
            }
          }
        }
      }
    }
    if flag {
      r := Relro.Partial;
    } else {
      assert forall h :: h in phs ==> h.pType != PT_GNU_RELRO by {
        forall h | h in phs ensures h.pType != PT_GNU_RELRO {
          var k :| 0 <= k < |phs| && phs[k] == h;
        }
      }
      r := Relro.None;
    }
  }

  /** Reordering the dynamic entries never changes the RELRO result. */
  lemma {:induction false} RelroIgnoresDynOrder(elf: Elf, dyns: seq<Dyn>)
    requires elf.dynamic.Some?
    requires multiset(dyns) == multiset(elf.dynamic.value.dyns)
    ensures RelroOf(elf.(dynamic := Wrappers.Some(elf.dynamic.value.(dyns := dyns)))) == RelroOf(elf)
  {
    var old_ := elf.dynamic.value.dyns;
    forall d ensures d in dyns <==> d in old_ {
      assert d in dyns <==> d in multiset(dyns);
      assert d in old_ <==> d in multiset(old_);
    }
  }

  /** A RELRO segment without a dynamic section is only partial. */
  lemma RelroStaticIsPartial(elf: Elf)
    requires HasSegment(elf.programHeaders, PT_GNU_RELRO)
    requires elf.dynamic.None?
    ensures RelroOf(elf) == Relro.Partial
  {
  }

  // --------------------------------------------------------------- canary

  const STACK_CHK_FAIL := "__stack_chk_fail"
  const INTEL_SECURITY_COOKIE := "__intel_security_cookie"

  /** Some name is exactly one of the two canary support symbols. */
  predicate CanaryIn(names: seq<string>)
  {
    exists n :: n in names && (n == STACK_CHK_FAIL || n == INTEL_SECURITY_COOKIE)
  }

  /** `has_canary`: false when the string table cannot be read. */
  function HasCanary(elf: Elf): (r: bool)
    ensures r <==> elf.dynStrings.Some?
                   && (STACK_CHK_FAIL in elf.dynStrings.value || INTEL_SECURITY_COOKIE in elf.dynStrings.value)
  {
    match elf.dynStrings
    case None => false
    case Some(names) => CanaryIn(names)
  }

  // -------------------------------------------------------------------- NX

  /** The index of the first header of type `pType`, if any. */
  function FirstOfType(phs: seq<ProgramHeader>, pType: u32): (r: Wrappers.Option<nat>)
    ensures r.Some? ==> r.value < |phs| && phs[r.value].pType == pType
                        && forall k :: 0 <= k < r.value ==> phs[k].pType != pType
    ensures r.None? ==> forall k :: 0 <= k < |phs| ==> phs[k].pType != pType
    decreases |phs|
  {
    if phs == [] then Wrappers.None
    else if phs[0].pType == pType then Wrappers.Some(0)
    else match FirstOfType(phs[1..], pType)
      case None => Wrappers.None
      case Some(i) => Wrappers.Some(i + 1)
  }

  /** NX: the first `PT_GNU_STACK` header decides, and only flags of exactly
      read, write and execute disable it; without such a header it is off. */
  function NxOf(elf: Elf): (r: bool)
  {
    match FirstOfType(elf.programHeaders, PT_GNU_STACK)
    case None => false
    case Some(i) => elf.programHeaders[i].pFlags != PF_R + PF_W + PF_X
  }

  /** The scan of `has_nx`: answer at the first `PT_GNU_STACK` header. */
  method HasNx(elf: Elf) returns (nx: bool)
    ensures nx == NxOf(elf)
  {
    var phs := elf.programHeaders;
    for i := 0 to |phs|
      invariant forall k :: 0 <= k < i ==> phs[k].pType != PT_GNU_STACK
    {
      var header := phs[i];
      if header.pType == PT_GNU_STACK {
        if header.pFlags == PF_R + PF_W + PF_X {
          return false;
        } else {
          return true;
        }
      }
    }
    return false;
  }

  /** Without a `PT_GNU_STACK` header, NX is off. */
  lemma NxWithoutStack(elf: Elf)
    requires !HasSegment(elf.programHeaders, PT_GNU_STACK)
    ensures !NxOf(elf)
  {
    var phs := elf.programHeaders;
    forall k | 0 <= k < |phs| ensures phs[k].pType != PT_GNU_STACK {
      assert phs[k] in phs;
    }
  }

  /** Only the first `PT_GNU_STACK` header counts: whatever follows it,
      NX is on unless its flags are exactly `PF_R + PF_W + PF_X`. */
  lemma NxFirstStackDecides(elf: Elf, before: seq<ProgramHeader>, stack: ProgramHeader, after: seq<ProgramHeader>)
    requires elf.programHeaders == before + [stack] + after
    requires stack.pType == PT_GNU_STACK
    requires !HasSegment(before, PT_GNU_STACK)
    ensures NxOf(elf) <==> stack.pFlags != 7
  {
    var phs := elf.programHeaders;
    assert phs[|before|] == stack;
    forall k | 0 <= k < |before| ensures phs[k].pType != PT_GNU_STACK {
      assert phs[k] == before[k];
      assert before[k] in before;
    }
  }

  /** Extra bits beside read, write and execute leave NX on. */
  lemma NxExactFlagsOnly(elf: Elf)
    requires elf.programHeaders == [ProgramHeader(PT_GNU_STACK, PF_R + PF_W + PF_X + 8, 0)]
    ensures NxOf(elf)
  {
  }

  // ------------------------------------------------------------------- PIE

  /** The dynamic section is present and `flags_1` has every `DF_1_PIE` bit. */
  predicate PieFlagged(dynamic: Wrappers.Option<Dynamic>)
  {
    dynamic.Some? && dynamic.value.flags1 & DF_1_PIE == DF_1_PIE
  }

  /** `has_pie`, decided by the file type and, for shared objects, the PIE
      bit of `flags_1`. */
  function HasPie(elf: Elf): (r: Pie)
    ensures r == Pie.REL <==> elf.eType == ET_REL
    ensures r == Pie.PIE <==> elf.eType == ET_DYN && PieFlagged(elf.dynamic)
    ensures r == Pie.DSO <==> elf.eType == ET_DYN && !PieFlagged(elf.dynamic)
    ensures r == Pie.None <==> elf.eType != ET_REL && elf.eType != ET_DYN
  {
    if elf.eType == ET_EXEC then Pie.None
    else if elf.eType == ET_REL then Pie.REL
    else if elf.eType == ET_DYN then
      if elf.dynamic.Some? && elf.dynamic.value.flags1 & DF_1_PIE == DF_1_PIE then Pie.PIE
      else Pie.DSO
    else Pie.None
  }

  /** Program headers never affect the PIE result. */
  lemma PieIgnoresProgramHeaders(elf: Elf, phs: seq<ProgramHeader>)
    ensures HasPie(elf.(programHeaders := phs)) == HasPie(elf)
  {
  }

  // --------------------------------------------------------------- FORTIFY

  /** Some name ends in "_chk". */
  predicate FortifyIn(names: seq<string>)
  {
    exists n :: n in names && Strings.EndsWith(n, "_chk")
  }

  /** `has_fortify`: false when the string table cannot be read. */
  function HasFortify(elf: Elf): (r: bool)
    ensures elf.dynStrings.None? ==> !r
    ensures forall n :: elf.dynStrings.Some? && n in elf.dynStrings.value && Strings.EndsWith(n, "_chk") ==> r
    ensures r ==> exists n :: n in elf.dynStrings.value && |n| >= 4 && n[|n| - 4..] == "_chk"
  {
    match elf.dynStrings
    case None => false
    case Some(names) => FortifyIn(names)
  }

  /** The GCC canary symbol is not itself a fortified call. */
  lemma StackChkFailIsNotFortify()
    ensures CanaryIn([STACK_CHK_FAIL]) && !FortifyIn([STACK_CHK_FAIL])
  {
    var n := STACK_CHK_FAIL;
    assert n in [STACK_CHK_FAIL];
    assert n[|n| - 1] == 'l';
  }

  // ----------------------------------------------- symbol-name heuristics

  /** Both symbol checks only grow as names are added. */
  lemma SymbolChecksMonotone(names: seq<string>, more: seq<string>)
    requires forall n :: n in names ==> n in more
    ensures CanaryIn(names) ==> CanaryIn(more)
    ensures FortifyIn(names) ==> FortifyIn(more)
  {
  }

  /** Both symbol checks see only which names occur, not how often. */
  lemma SymbolChecksIgnoreDuplicates(names: seq<string>, n: string)
    requires n in names
    ensures CanaryIn(names + [n]) == CanaryIn(names)
    ensures FortifyIn(names + [n]) == FortifyIn(names)
  {
    forall m ensures m in names + [n] <==> m in names {
    }
  }

  /** Adding a canary symbol to a readable table turns the canary check on. */
  lemma CanarySymbolEnablesCanary(elf: Elf, names: seq<string>)
    requires elf.dynStrings == Wrappers.Some(names)
    ensures HasCanary(elf.(dynStrings := Wrappers.Some(names + [STACK_CHK_FAIL])))
    ensures HasCanary(elf.(dynStrings := Wrappers.Some(names + [INTEL_SECURITY_COOKIE])))
  {
    assert STACK_CHK_FAIL in names + [STACK_CHK_FAIL];
    assert INTEL_SECURITY_COOKIE in names + [INTEL_SECURITY_COOKIE];
  }
}
