/** The result record of one ELF file and the text report it prints:
    the labelled lines, colour dropped. */
module Checksec {
  import Wrappers
  import Strings
  import Elf

  datatype CheckSecResults = CheckSecResults(
    arch: string,
    relro: Elf.Relro,
    canary: bool,
    nx: bool,
    pie: Elf.Pie,
    fortify: bool,
    address: Elf.u64,
    rwxSegments: bool)

  /** Fills every field with the like-named classifier's result on the same
      file. `rwxSegments` comes from a classifier outside this model and is
      taken as given. */
  method Parse(elf: Elf.Elf, rwxSegments: bool) returns (r: CheckSecResults)
    ensures r.arch == Elf.Arch(elf)
    ensures r.relro == Elf.RelroOf(elf)
    ensures r.canary == Elf.HasCanary(elf)
    ensures r.nx == Elf.NxOf(elf)
    ensures r.pie == Elf.HasPie(elf)
    ensures r.fortify == Elf.HasFortify(elf)
    ensures r.address == Elf.AddressOf(elf)
    ensures r.rwxSegments == rwxSegments
  {
    var relro := Elf.HasRelro(elf);
    var nx := Elf.HasNx(elf);
    var address := Elf.Address(elf);
    r := CheckSecResults(Elf.Arch(elf), relro, Elf.HasCanary(elf), nx, Elf.HasPie(elf),
                         Elf.HasFortify(elf), address, rwxSegments);
  }

  // ------------------------------------------------------------ line text

  const PADDING := "    "
  const LABEL_WIDTH := 10

  /** One report line: the padding, the title left-aligned in 10 columns,
      then the value. */
  function Line(title: string, value: string): (line: string)
    ensures |line| == 4 + (if |title| < LABEL_WIDTH then LABEL_WIDTH else |title|) + |value|
  {
    PADDING + Strings.PadRight(title, LABEL_WIDTH) + value
  }

  /** A title of at most 10 characters fills the columns after the padding,
      and the value starts at column 14. */
  lemma LineLayout(title: string, value: string)
    requires |title| <= LABEL_WIDTH
    ensures var line := Line(title, value);
      && |line| == 14 + |value|
      && line[..4] == PADDING
      && line[4..4 + |title|] == title
      && (forall k :: 4 + |title| <= k < 14 ==> line[k] == ' ')
      && line[14..] == value
  {
    var padded := Strings.PadRight(title, LABEL_WIDTH);
    var line := Line(title, value);
    assert line == PADDING + padded + value;
    assert line[4..14] == padded;
    forall k | 4 + |title| <= k < 14 ensures line[k] == ' ' {
      assert line[k] == padded[k - 4];
    }
    assert line[4..4 + |title|] == padded[..|title|];
  }

  /** The RELRO value names the strength in its first word, whose initial
      alone tells the three apart. */
  function RelroText(relro: Elf.Relro): (text: string)
    ensures text != [] && Strings.EndsWith(text, " RELRO")
    ensures text[0] == 'N' <==> relro.None?
    ensures text[0] == 'P' <==> relro.Partial?
    ensures text[0] == 'F' <==> relro.Full?
  {
    match relro
    case None => "No RELRO"
    case Partial => "Partial RELRO"
    case Full => "Full RELRO"
  }

  /** The Stack value starts with "No" exactly when no canary was found. */
  function StackText(canary: bool): (text: string)
    ensures text != [] && Strings.EndsWith(text, "anary found")
    ensures text[0] == 'N' <==> !canary
  {
    if canary then "Canary found" else "No canary found"
  }

  /** The NX value reads "enabled" or "disabled" after "NX ". */
  function NxText(nx: bool): (text: string)
    ensures Strings.StartsWith(text, "NX ")
    ensures text[3..] == if nx then "enabled" else "disabled"
  {
    if nx then "NX enabled" else "NX disabled"
  }

  /** "PIE enabled" for PIE executables and shared objects; otherwise
      "No PIE" with the base address in `{:#x}` form. */
  function PieText(pie: Elf.Pie, address: Elf.u64): (text: string)
    ensures text != [] && (text == "PIE enabled" <==> pie.PIE? || pie.DSO?)
    ensures text[0] == 'N' <==> !(pie.PIE? || pie.DSO?)
    ensures !(pie.PIE? || pie.DSO?) ==> Strings.StartsWith(text, "No PIE (0x") && Strings.EndsWith(text, ")")
  {
    if pie.PIE? || pie.DSO? then "PIE enabled"
    else "No PIE (" + Strings.AltLowerHex(address) + ")"
  }

  /** Reads the address back out of a "No PIE (0x…)" text. */
  function ParsePieAddress(text: string): (r: Wrappers.Option<nat>)
  {
    if |text| >= 12 && text[..10] == "No PIE (0x" && text[|text| - 1] == ')'
       && forall k :: 10 <= k < |text| - 1 ==> Strings.IsHexDigit(text[k])
    then Wrappers.Some(Strings.HexValue(text[10..|text| - 1]))
    else Wrappers.None
  }

  /** The PIE value shows the base address exactly when the file is not
      position independent, and the address can be read back from it. */
  lemma PieTextRoundTrip(pie: Elf.Pie, address: Elf.u64)
    ensures ParsePieAddress(PieText(pie, address))
            == if pie.PIE? || pie.DSO? then Wrappers.None else Wrappers.Some(address)
  {
    var text := PieText(pie, address);
    if pie.PIE? || pie.DSO? {
      assert |text| == 11;
    } else {
      var digits := Strings.LowerHex(address);
      assert text == "No PIE (0x" + digits + ")";
      assert text[..10] == "No PIE (0x";
      assert text[10..|text| - 1] == digits;
      forall k | 10 <= k < |text| - 1 ensures Strings.IsHexDigit(text[k]) {
        assert text[k] == digits[k - 10];
      }
      Strings.HexRoundTrip(address);
    }
  }

  // ---------------------------------------------------------------- lines

  const FORTIFY_LINE := Line("FORTIFY:", "Enabled")
  const RWX_LINE := Line("RWX:", "Has RWX segments")

  /** The report's lines in order: Arch, RELRO, Stack, NX and PIE always,
      then FORTIFY when fortified, then RWX when there are RWX segments. */
  function Lines(r: CheckSecResults): (lines: seq<string>)
    ensures |lines| == 5 + (if r.fortify then 1 else 0) + (if r.rwxSegments then 1 else 0)
    ensures lines[0] == Line("Arch:", r.arch)
    ensures lines[1] == Line("RELRO:", RelroText(r.relro))
    ensures lines[2] == Line("Stack:", StackText(r.canary))
    ensures lines[3] == Line("NX:", NxText(r.nx))
    ensures lines[4] == Line("PIE:", PieText(r.pie, r.address))
    ensures r.fortify ==> lines[5] == FORTIFY_LINE
    ensures r.rwxSegments ==> lines[|lines| - 1] == RWX_LINE
  {
    [ Line("Arch:", r.arch),
      Line("RELRO:", RelroText(r.relro)),
      Line("Stack:", StackText(r.canary)),
      Line("NX:", NxText(r.nx)),
      Line("PIE:", PieText(r.pie, r.address)) ]
    + (if r.fortify then [FORTIFY_LINE] else [])
    + (if r.rwxSegments then [RWX_LINE] else [])
  }

  /** The report loses nothing but colour and, for position-independent
      files, the base address: two results with the same lines agree on
      every other field. */
  lemma {:induction false} LinesDetermineResult(r1: CheckSecResults, r2: CheckSecResults)
    requires Lines(r1) == Lines(r2)
    ensures r1.arch == r2.arch && r1.relro == r2.relro && r1.canary == r2.canary && r1.nx == r2.nx
    ensures (r1.pie.PIE? || r1.pie.DSO?) <==> (r2.pie.PIE? || r2.pie.DSO?)
    ensures !(r1.pie.PIE? || r1.pie.DSO?) ==> r1.address == r2.address
    ensures r1.fortify == r2.fortify && r1.rwxSegments == r2.rwxSegments
  {
    var l1, l2 := Lines(r1), Lines(r2);
    LineLayout("Arch:", r1.arch);
    LineLayout("Arch:", r2.arch);
    LineLayout("RELRO:", RelroText(r1.relro));
    LineLayout("RELRO:", RelroText(r2.relro));
    LineLayout("Stack:", StackText(r1.canary));
    LineLayout("Stack:", StackText(r2.canary));
    LineLayout("NX:", NxText(r1.nx));
    LineLayout("NX:", NxText(r2.nx));
    LineLayout("PIE:", PieText(r1.pie, r1.address));
    LineLayout("PIE:", PieText(r2.pie, r2.address));
    assert l1[0][14..] == l2[0][14..];
    assert RelroText(r1.relro) == RelroText(r2.relro);
    assert StackText(r1.canary) == StackText(r2.canary);
    assert NxText(r1.nx) == NxText(r2.nx);
    assert PieText(r1.pie, r1.address) == PieText(r2.pie, r2.address);
    PieTextRoundTrip(r1.pie, r1.address);
    PieTextRoundTrip(r2.pie, r2.address);
    LineLayout("FORTIFY:", "Enabled");
    LineLayout("RWX:", "Has RWX segments");
  }

  // --------------------------------------------------------------- output

  /** Five lines joined by newlines. */
  lemma JoinFive(a: string, b: string, c: string, d: string, e: string)
    ensures Strings.Join([a, b, c, d, e], "\n") == a + "\n" + b + "\n" + c + "\n" + d + "\n" + e
  {
    Strings.JoinThree(a, b, c, "\n");
    assert [a, b, c] + [d] == [a, b, c, d];
    Strings.JoinSnoc([a, b, c], d, "\n");
    assert [a, b, c, d] + [e] == [a, b, c, d, e];
    Strings.JoinSnoc([a, b, c, d], e, "\n");
  }

  /** `Display::fmt`: writes the lines in order, a newline between two lines
      and none after the last. */
  method Fmt(r: CheckSecResults) returns (out: string)
    ensures out == Strings.Join(Lines(r), "\n")
  {
    var arch := Line("Arch:", r.arch);
    var relro := Line("RELRO:", RelroText(r.relro));
    var stack := Line("Stack:", StackText(r.canary));
    var nx := Line("NX:", NxText(r.nx));
    var pie := Line("PIE:", PieText(r.pie, r.address));
    out := arch + "\n";
    out := out + relro + "\n";
    out := out + stack + "\n";
    out := out + nx + "\n";
    out := out + pie;
    JoinFive(arch, relro, stack, nx, pie);
    ghost var shown := [arch, relro, stack, nx, pie];
    assert out == Strings.Join(shown, "\n");
    if r.fortify {
      out := out + "\n";
      out := out + FORTIFY_LINE;
      Strings.JoinSnoc(shown, FORTIFY_LINE, "\n");
      shown := shown + [FORTIFY_LINE];
    }
    assert out == Strings.Join(shown, "\n");
    if r.rwxSegments {
      out := out + "\n";
      out := out + RWX_LINE;
      Strings.JoinSnoc(shown, RWX_LINE, "\n");
      shown := shown + [RWX_LINE];
    }
    assert out == Strings.Join(shown, "\n");
    assert shown == Lines(r);
  }
}
