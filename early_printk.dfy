/**
 * The arm64 early console: the process-wide selection state (early_base
 * and printch), the earlyprintk= boot-argument parser and the line
 * writer registered with the console framework.
 */
module EarlyPrintk {
  import opened Wrappers
  import opened Registry
  import opened StrToUL
  import opened LineDiscipline

  /**
   * The handle set_fixmap_offset_io(FIX_EARLYCON_MEM_BASE, paddr) returns
   * for a physical address; the fixmap arithmetic itself is not modelled.
   */
  datatype Mapping = FixmapIo(paddr: nat)

  /** The pr_warning messages the parser can log. */
  datatype Warning = NoArguments | UnknownArguments(arg: string)

  /**
   * The address in the text left after the backend name: parsed from
   * "0x..." when that text starts with ",0x", and 0 otherwise.
   */
  function PhysAddr(rest: string): (paddr: nat)
    ensures paddr < ULONG_LIMIT
    ensures !(",0x" <= rest) ==> paddr == 0
  {
    if ",0x" <= rest then StrToUL16(rest[1..]).value else 0
  }

  /** The address the argument buf gives to the entry it selects. */
  function SelectedAddr(buf: string): (paddr: nat)
    requires FirstMatch(buf).Some?
  {
    PhysAddr(buf[|Table[FirstMatch(buf).value].name|..])
  }

  /**
   * ",0x<digits><options>" gives the value of the digits modulo 2^64, for
   * any hex spelling: upper or lower case, with or without leading zeros.
   */
  lemma AddressAfterName(digits: string, options: string)
    requires AllHex(digits)
    requires options == [] || !IsHexDigit(options[0])
    ensures PhysAddr(",0x" + digits + options) == HexValue(digits) % ULONG_LIMIT
  {
    var rest := ",0x" + digits + options;
    assert ",0x" <= rest;
    assert rest[1..] == "0x" + digits + options;
    StrToUL16Digits(digits, options);
  }

  /**
   * "<name>,0x<digits><options>" selects that name's entry and the address
   * the digits spell, whatever options follow the number.
   */
  lemma NameWithAddress(i: nat, digits: string, options: string)
    requires i < |Table| && AllHex(digits)
    requires options == [] || !IsHexDigit(options[0])
    ensures FirstMatch(Table[i].name + ",0x" + digits + options) == Some(i)
    ensures SelectedAddr(Table[i].name + ",0x" + digits + options) == HexValue(digits) % ULONG_LIMIT
  {
    var name := Table[i].name;
    var rest := ",0x" + digits + options;
    assert name + ",0x" + digits + options == name + rest;
    assert FirstMatch(name + rest) == Some(i) by {
      OwnNameSelected(i, rest);
    }
    assert PhysAddr((name + rest)[|name|..]) == HexValue(digits) % ULONG_LIMIT by {
      assert (name + rest)[|name|..] == rest;
      AddressAfterName(digits, options);
    }
  }

  /** A 64-bit address written as ToHex gives exactly that address. */
  lemma NameWithCanonicalAddress(i: nat, paddr: nat, options: string)
    requires i < |Table| && paddr < ULONG_LIMIT
    requires options == [] || !IsHexDigit(options[0])
    ensures FirstMatch(Table[i].name + ",0x" + ToHex(paddr) + options) == Some(i)
    ensures SelectedAddr(Table[i].name + ",0x" + ToHex(paddr) + options) == paddr
  {
    assert HexValue(ToHex(paddr)) % ULONG_LIMIT == paddr by {
      HexValueToHex(paddr);
    }
    NameWithAddress(i, ToHex(paddr), options);
  }

  /** A bare name selects its entry and gives no address. */
  lemma NameWithoutAddress(i: nat)
    requires i < |Table|
    ensures FirstMatch(Table[i].name) == Some(i)
    ensures SelectedAddr(Table[i].name) == 0
  {
    OwnNameSelected(i, []);
    assert Table[i].name + [] == Table[i].name;
    assert Table[i].name[|Table[i].name|..] == [];
  }

  /** An explicit zero address counts as no address. */
  lemma ZeroAddressIsNoAddress(i: nat, options: string)
    requires i < |Table|
    requires options == [] || !IsHexDigit(options[0])
    ensures SelectedAddr(Table[i].name + ",0x0" + options) == 0
  {
    var name := Table[i].name;
    assert AllHex("0") && HexValue("0") == 0 by {
      assert "0"[..0] == [];
    }
    assert name + ",0x0" + options == name + ",0x" + "0" + options;
    NameWithAddress(i, "0", options);
  }

  /** Text after the name that is not ",0x..." is ignored: no address. */
  lemma OptionsWithoutAddress(i: nat, rest: string)
    requires i < |Table|
    requires !(",0x" <= rest)
    ensures FirstMatch(Table[i].name + rest) == Some(i)
    ensures SelectedAddr(Table[i].name + rest) == 0
  {
    OwnNameSelected(i, rest);
    assert (Table[i].name + rest)[|Table[i].name|..] == rest;
  }

  /**
   * The scan over the table in setup_early_printk: the index of the first
   * entry whose name prefixes buf, or the table's length (the sentinel)
   * when there is none.
   */
  method Lookup(buf: string) returns (i: nat)
    ensures i <= |Table|
    ensures i < |Table| ==> FirstMatch(buf) == Some(i)
    ensures i == |Table| ==> FirstMatch(buf) == None
  {
    i := 0;
    while i < |Table|
      invariant i <= |Table|
      invariant forall j :: 0 <= j < i ==> !Matches(Table[j], buf)
    {
      if Matches(Table[i], buf) {
        FirstMatchIsLeast(buf, i);
        return;
      }
      i := i + 1;
    }
    NoMatchIffNoPrefix(buf);
  }

  /**
   * The selection state of the early console. base is early_base and
   * sink is printch (None for NULL); registered records that early_console
   * was set and register_console called; trace is everything the active
   * sink has transmitted; warnings is the pr_warning log. shrinkPrintk
   * is the build option CONFIG_SHSYS_CUST, under which the msm_hsl_uart
   * transmit function is compiled to an empty body.
   */
  class EarlyConsole {
    const shrinkPrintk: bool
    var base: Option<Mapping>
    var sink: Option<Backend>
    var registered: bool
    var trace: seq<char>
    var warnings: seq<Warning>

    /** The console is registered exactly when a sink has been chosen. */
    ghost predicate Valid()
      reads this
    {
      registered <==> sink.Some?
    }

    /** The active sink transmits nothing: msm_hsl_uart built with CONFIG_SHSYS_CUST. */
    predicate Silent()
      reads this
    {
      shrinkPrintk && sink == Some(MSM_HSL)
    }

    /** The state at boot: both globals NULL, nothing registered or sent. */
    constructor (shrink: bool)
      ensures Valid() && shrinkPrintk == shrink
      ensures base == None && sink == None && !registered
      ensures trace == [] && warnings == []
    {
      shrinkPrintk := shrink;
      base, sink, registered := None, None, false;
      trace, warnings := [], [];
    }

    /**
     * Transmit one character through the active sink. Every backend's
     * register protocol or semihosting trap reduces here to appending the
     * character to the trace; the compiled-out msm_hsl_uart body sends
     * nothing.
     */
    method Printch(ch: char)
      requires sink.Some?
      modifies this`trace
      ensures trace == old(trace) + (if Silent() then [] else [ch])
    {
      match sink.value
      case MSM_HSL =>
        if !shrinkPrintk {
          trace := trace + [ch];
        }
      case _ =>
        trace := trace + [ch];
    }

    /** early_write: send s[0..n) through the sink, CR before each LF. */
    method Write(s: seq<char>, n: nat)
      requires Valid() && registered
      requires n <= |s|
      modifies this`trace
      ensures trace == old(trace) + (if Silent() then [] else Expand(s[..n]))
      ensures !Silent() ==> |trace| == |old(trace)| + n + LineFeeds(s[..n])
    {
      var count := n;
      var i := 0;
      while count > 0
        invariant i + count == n
        invariant trace == old(trace) + (if Silent() then [] else Expand(s[..i]))
      {
        count := count - 1;
        if s[i] == '\n' {
          Printch('\r');
        }
        Printch(s[i]);
        ExpandSnoc(s[..i], s[i]);
        assert s[..i + 1] == s[..i] + [s[i]];
        i := i + 1;
      }
      ExpandLength(s[..n]);
    }

    /**
     * setup_early_printk: select a backend by the first name that prefixes
     * the argument, remap a nonzero ",0x" address, record the sink and
     * register the console. Always returns 0.
     */
    method Setup(arg: Option<string>) returns (r: int)
      requires Valid()
      modifies this`base, this`sink, this`registered, this`warnings
      ensures Valid() && r == 0
      ensures arg.None? ==>
        base == old(base) && sink == old(sink) && registered == old(registered) &&
        warnings == old(warnings) + [NoArguments]
      ensures arg.Some? && FirstMatch(arg.value).None? ==>
        base == old(base) && sink == old(sink) && registered == old(registered) &&
        warnings == old(warnings) + [UnknownArguments(arg.value)]
      ensures arg.Some? && FirstMatch(arg.value).Some? ==>
        var paddr := SelectedAddr(arg.value);
        sink == Some(Table[FirstMatch(arg.value).value].sink) && registered &&
        base == (if paddr != 0 then Some(FixmapIo(paddr)) else old(base)) &&
        warnings == old(warnings)
    {
      if arg.None? {
        warnings := warnings + [NoArguments];
        return 0;
      }
      var buf := arg.value;
      var i := Lookup(buf);
      if i == |Table| {
        warnings := warnings + [UnknownArguments(buf)];
        return 0;
      }
      buf := buf[|Table[i].name|..];

      var paddr := 0;
      if ",0x" <= buf {
        var e := StrToUL16(buf[1..]);
        paddr := e.value;
        buf := buf[1..][e.end..];
      }
      // options after the address are not interpreted

      if paddr != 0 {
        base := Some(FixmapIo(paddr));
      }
      sink := Some(Table[i].sink);
      registered := true;
      return 0;
    }
  }

  /**
   * A boot that passes an argument no name matches, then
   * "<name>,0x<hex><options>", then writes text: the first argument changes
   * nothing, the second selects that name's sink at the remapped address,
   * and the sink sends text with CR before each LF (nothing, for the
   * compiled-out msm_hsl_uart sink).
   */
  method BootSequence(shrink: bool, bad: string, i: nat, paddr: nat, options: string, text: string)
    returns (sent: seq<char>, chosen: Option<Backend>, at: Option<Mapping>, warned: seq<Warning>)
    requires FirstMatch(bad) == None
    requires i < |Table| && 0 < paddr < ULONG_LIMIT
    requires options == [] || !IsHexDigit(options[0])
    ensures sent == if shrink && Table[i].sink == MSM_HSL then [] else Expand(text)
    ensures chosen == Some(Table[i].sink) && at == Some(FixmapIo(paddr))
    ensures warned == [UnknownArguments(bad)]
  {
    var con := new EarlyConsole(shrink);
    var r := con.Setup(Some(bad));
    var arg := Table[i].name + ",0x" + ToHex(paddr) + options;
    NameWithCanonicalAddress(i, paddr, options);
    r := con.Setup(Some(arg));
    con.Write(text, |text|);
    assert text[..|text|] == text;
    sent, chosen, at, warned := con.trace, con.sink, con.base, con.warnings;
  }
}
