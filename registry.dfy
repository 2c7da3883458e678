/**
 * The early-console backend registry: a fixed, ordered table of
 * (name, transmit function) pairs, scanned first to last.
 */
module Registry {
  import opened Wrappers

  /** The closed set of single-character transmit functions. */
  datatype Backend = PL011 | SMH | UART8250_8 | UART8250_32 | MSM_HSL

  datatype Entry = Entry(name: string, sink: Backend)

  /**
   * The table in declaration order. The C table ends with an empty
   * sentinel entry; here its end is the end of the sequence.
   */
  const Table: seq<Entry> := [
    Entry("pl011", PL011),
    Entry("smh", SMH),
    Entry("uart8250-8bit", UART8250_8),
    Entry("uart8250-32bit", UART8250_32),
    Entry("msm_hsl_uart", MSM_HSL)
  ]

  /**
   * strncmp(buf, name, strlen(name)) == 0: the entry's name is a literal
   * prefix of the argument.
   */
  predicate Matches(e: Entry, buf: string) {
    e.name <= buf
  }

  /** The first entry at or after index i whose name is a prefix of buf. */
  function FirstMatchFrom(buf: string, i: nat): (r: Option<nat>)
    requires i <= |Table|
    decreases |Table| - i
    ensures r.Some? ==> i <= r.value < |Table| && Matches(Table[r.value], buf)
    ensures r.Some? ==> forall j :: i <= j < r.value ==> !Matches(Table[j], buf)
    ensures r.None? ==> forall j :: i <= j < |Table| ==> !Matches(Table[j], buf)
  {
    if i == |Table| then None
    else if Matches(Table[i], buf) then Some(i)
    else FirstMatchFrom(buf, i + 1)
  }

  /** The entry the argument selects, first match winning. */
  function FirstMatch(buf: string): (r: Option<nat>) {
    FirstMatchFrom(buf, 0)
  }

  /** The selected entry is the lowest index whose name is a prefix, and only it. */
  lemma FirstMatchIsLeast(buf: string, i: nat)
    ensures FirstMatch(buf) == Some(i) <==>
      (i < |Table| && Matches(Table[i], buf) && forall j :: 0 <= j < i ==> !Matches(Table[j], buf))
  {
  }

  /** Nothing is selected exactly when no name in the table is a prefix. */
  lemma NoMatchIffNoPrefix(buf: string)
    ensures FirstMatch(buf).None? <==> forall j :: 0 <= j < |Table| ==> !Matches(Table[j], buf)
  {
    var r := FirstMatch(buf);
    if r.Some? {
      assert Matches(Table[r.value], buf);
    }
  }

  /** Two names that differ at a position inside both are never prefix-related. */
  lemma {:induction false} DivergentNames(a: string, b: string, k: nat, rest: string)
    requires k < |a| && k < |b| && a[k] != b[k]
    ensures !(a <= b + rest)
  {
    assert (b + rest)[k] == b[k];
  }

  /**
   * No entry can capture an argument that starts with a later entry's
   * name: each name followed by anything selects that very entry.
   */
  lemma OwnNameSelected(i: nat, rest: string)
    requires i < |Table|
    ensures FirstMatch(Table[i].name + rest) == Some(i)
  {
    var buf := Table[i].name + rest;
    assert Matches(Table[i], buf);
    forall j | 0 <= j < i
      ensures !Matches(Table[j], buf)
    {
      var k := if i == 3 && j == 2 then 9 else 0;
      DivergentNames(Table[j].name, Table[i].name, k, rest);
    }
    FirstMatchIsLeast(buf, i);
  }

  /** An argument with trailing text after a name still selects that name. */
  lemma TrailingTextStillMatches()
    ensures FirstMatch("pl011xyz") == Some(0)
  {
    assert "pl011xyz" == Table[0].name + "xyz";
    OwnNameSelected(0, "xyz");
  }

  /** The empty argument selects nothing: every name is non-empty. */
  lemma EmptyArgumentUnknown()
    ensures FirstMatch("") == None
  {
    forall j | 0 <= j < |Table|
      ensures !Matches(Table[j], "")
    {
      assert |Table[j].name| > 0;
    }
    NoMatchIffNoPrefix("");
  }
}
