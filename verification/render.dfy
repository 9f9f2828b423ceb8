/**
 The report of a broken independence contract, as the sequence of lines it prints. Indenting
 the cursor before a continuation link is kept as a flag on the line; the width of the indent
 belongs to the output module.
 */
module Render {
  import opened Independence

  datatype OutputLine = Text(indented: bool, text: string) | Blank

  predicate IsDigit(c: char) {
    '0' <= c <= '9'
  }

  predicate AllDigits(s: string) {
    forall i :: 0 <= i < |s| ==> IsDigit(s[i])
  }

  function DigitChar(d: nat): (c: char)
    requires d < 10
    ensures IsDigit(c)
  {
    (('0' as int) + d) as char
  }

  function DigitValue(c: char): nat
    requires IsDigit(c)
  {
    (c as int) - ('0' as int)
  }

  /** Python's str() of a non-negative int: decimal digits, no leading zero. */
  function Decimal(n: nat): (s: string)
    ensures |s| >= 1 && AllDigits(s)
    ensures |s| > 1 ==> s[0] != '0'
    decreases n
  {
    if n < 10 then [DigitChar(n)] else Decimal(n / 10) + [DigitChar(n % 10)]
  }

  /** The number a string of decimal digits denotes. */
  function DecimalValue(s: string): nat
    requires AllDigits(s)
    decreases |s|
  {
    if s == [] then 0 else DecimalValue(s[..|s| - 1]) * 10 + DigitValue(s[|s| - 1])
  }

  lemma {:induction false} DecimalRoundTrip(n: nat)
    ensures DecimalValue(Decimal(n)) == n
    decreases n
  {
    var s := Decimal(n);
    if n >= 10 {
      DecimalRoundTrip(n / 10);
      assert s[..|s| - 1] == Decimal(n / 10);
    }
  }

  /** The length of the run of digits `s` starts with. */
  function DigitRun(s: string): (k: nat)
    ensures k <= |s| && AllDigits(s[..k])
    ensures k < |s| ==> !IsDigit(s[k])
    decreases |s|
  {
    if s == [] || !IsDigit(s[0]) then 0 else 1 + DigitRun(s[1..])
  }

  lemma {:induction false} DigitRunOfDigits(d: string, tail: string)
    requires AllDigits(d)
    requires tail == [] || !IsDigit(tail[0])
    ensures DigitRun(d + tail) == |d|
    decreases |d|
  {
    if d != [] {
      assert (d + tail)[1..] == d[1..] + tail;
      DigitRunOfDigits(d[1..], tail);
    } else {
      assert d + tail == tail;
    }
  }

  /** The text of one link's line numbers: "l.3, l.5, l.9". */
  function LineNumbersText(ns: seq<nat>): string
    decreases |ns|
  {
    if ns == [] then ""
    else if |ns| == 1 then "l." + Decimal(ns[0])
    else "l." + Decimal(ns[0]) + ", " + LineNumbersText(ns[1..])
  }

  /** Reads "l." and a run of digits at the start of `s`: the number and what follows it. */
  function ParseItem(s: string): (r: Option<(nat, string)>)
    ensures r.Some? ==> |r.value.1| < |s|
  {
    if |s| < 2 || s[..2] != "l." then
      None
    else
      var k := DigitRun(s[2..]);
      if k == 0 then None else Some((DecimalValue(s[2..][..k]), s[2..][k..]))
  }

  /** Reads back a non-empty list of line numbers written by LineNumbersText. */
  function ParseLineNumberItems(s: string): Option<seq<nat>>
    decreases |s|
  {
    match ParseItem(s)
    case None => None
    case Some((n, rest)) =>
      if rest == [] then
        Some([n])
      else if |rest| >= 2 && rest[..2] == ", " then
        match ParseLineNumberItems(rest[2..])
        case Some(ns) => Some([n] + ns)
        case None => None
      else
        None
  }

  function ParseLineNumbers(s: string): Option<seq<nat>> {
    if s == [] then Some([]) else ParseLineNumberItems(s)
  }

  /** An item written by LineNumbersText reads back as its number, leaving what follows. */
  lemma ParseItemOfDecimal(n: nat, tail: string)
    requires tail == [] || !IsDigit(tail[0])
    ensures ParseItem("l." + Decimal(n) + tail) == Some((n, tail))
  {
    var d := Decimal(n);
    var s := "l." + d + tail;
    assert s[..2] == "l.";
    assert s[2..] == d + tail;
    DigitRunOfDigits(d, tail);
    assert s[2..][..|d|] == d;
    assert s[2..][|d|..] == tail;
    DecimalRoundTrip(n);
  }

  /** The last item of a list reads back on its own. */
  lemma LastItemReadsBack(n: nat)
    ensures ParseLineNumberItems("l." + Decimal(n)) == Some([n])
  {
    ParseItemOfDecimal(n, "");
    assert "l." + Decimal(n) + "" == "l." + Decimal(n);
  }

  /** An item followed by ", " and a readable list reads back as that item before the list. */
  lemma ItemThenMoreReadsBack(n: nat, more: string, ns: seq<nat>)
    requires more != [] && ParseLineNumberItems(more) == Some(ns)
    ensures ParseLineNumberItems("l." + Decimal(n) + ", " + more) == Some([n] + ns)
  {
    var tail := ", " + more;
    var s := "l." + Decimal(n) + tail;
    ParseItemOfDecimal(n, tail);
    assert |tail| >= 2 && tail[..2] == ", " && tail[2..] == more;
    ItemsCons(s, n, tail, ns);
    assert "l." + Decimal(n) + ", " + more == s;
  }

  /** One step of ParseLineNumberItems over a separator. */
  lemma ItemsCons(s: string, n: nat, tail: string, ns: seq<nat>)
    requires ParseItem(s) == Some((n, tail))
    requires |tail| >= 2 && tail[..2] == ", " && tail[2..] != []
    requires ParseLineNumberItems(tail[2..]) == Some(ns)
    ensures ParseLineNumberItems(s) == Some([n] + ns)
  {
  }

  /** A single line number reads back. */
  lemma OneNumberRoundTrip(ns: seq<nat>)
    requires |ns| == 1
    ensures ParseLineNumbers(LineNumbersText(ns)) == Some(ns)
  {
    LastItemReadsBack(ns[0]);
    assert LineNumbersText(ns) == "l." + Decimal(ns[0]);
    assert ns == [ns[0]];
  }

  /** If the text of the later numbers reads back, so does the text of the whole list. */
  lemma MoreNumbersRoundTrip(n: nat, rest: seq<nat>)
    requires rest != []
    requires ParseLineNumbers(LineNumbersText(rest)) == Some(rest)
    ensures ParseLineNumbers(LineNumbersText([n] + rest)) == Some([n] + rest)
  {
    var more := LineNumbersText(rest);
    assert ([n] + rest)[0] == n && ([n] + rest)[1..] == rest;
    assert LineNumbersText([n] + rest) == "l." + Decimal(n) + ", " + more;
    ItemThenMoreReadsBack(n, more, rest);
  }

  /** The line numbers of a link can be read back from their text. */
  lemma {:induction false} LineNumbersRoundTrip(ns: seq<nat>)
    ensures ParseLineNumbers(LineNumbersText(ns)) == Some(ns)
    decreases |ns|
  {
    if |ns| == 1 {
      OneNumberRoundTrip(ns);
    } else if |ns| > 1 {
      LineNumbersRoundTrip(ns[1..]);
      MoreNumbersRoundTrip(ns[0], ns[1..]);
      assert ns == [ns[0]] + ns[1..];
    }
  }

  /** "importer -> imported (l.N, l.M)". */
  function ImportText(link: DirectImport): string {
    link.importer + " -> " + link.imported + " (" + LineNumbersText(link.lineNumbers) + ")"
  }

  /** Python module names are dotted identifiers, so they hold no space. */
  predicate SpaceFree(m: string) {
    forall i :: 0 <= i < |m| ==> m[i] != ' '
  }

  predicate NamesSpaceFree(link: DirectImport) {
    SpaceFree(link.importer) && SpaceFree(link.imported)
  }

  /** The position of the first space of `s`, or |s| when it has none. */
  function FirstSpace(s: string): (k: nat)
    ensures k <= |s|
    decreases |s|
  {
    if s == [] || s[0] == ' ' then 0 else 1 + FirstSpace(s[1..])
  }

  lemma {:induction false} FirstSpaceAfterName(name: string, tail: string)
    requires SpaceFree(name) && tail != [] && tail[0] == ' '
    ensures FirstSpace(name + tail) == |name|
    decreases |name|
  {
    if name != [] {
      assert (name + tail)[1..] == name[1..] + tail;
      FirstSpaceAfterName(name[1..], tail);
    } else {
      assert name + tail == tail;
    }
  }

  /** A name followed by text that starts with a space splits back into the two. */
  lemma SplitAfterName(name: string, tail: string)
    requires SpaceFree(name) && tail != [] && tail[0] == ' '
    ensures FirstSpace(name + tail) == |name|
    ensures (name + tail)[..|name|] == name && (name + tail)[|name|..] == tail
  {
    FirstSpaceAfterName(name, tail);
  }

  /** Reads the line numbers between " (" and the closing ")". */
  function ReadBracketed(tail: string): Option<seq<nat>> {
    if |tail| < 3 || tail[..2] != " (" || tail[|tail| - 1] != ')' then None
    else ParseLineNumbers(tail[2..|tail| - 1])
  }

  /** Reads the imported module, which runs to the first space, and the bracketed numbers. */
  function ReadImported(u: string): Option<(string, seq<nat>)> {
    var l := FirstSpace(u);
    match ReadBracketed(u[l..])
    case None => None
    case Some(ns) => Some((u[..l], ns))
  }

  /** Reads the text of one link back: the importer runs to the first space, " -> " follows, then
      the imported module and the line numbers between " (" and ")". */
  function ReadImport(t: string): Option<DirectImport> {
    var k := FirstSpace(t);
    var rest := t[k..];
    if |rest| < 4 || rest[..4] != " -> " then
      None
    else
      match ReadImported(rest[4..])
      case None => None
      case Some((imported, ns)) => Some(DirectImport(t[..k], imported, ns))
  }

  lemma BracketedReadsBack(ns: seq<nat>)
    ensures ReadBracketed(" (" + LineNumbersText(ns) + ")") == Some(ns)
  {
    var numbers := LineNumbersText(ns);
    var tail := " (" + numbers + ")";
    assert tail[..2] == " (" && tail[|tail| - 1] == ')' && tail[2..|tail| - 1] == numbers;
    LineNumbersRoundTrip(ns);
  }

  lemma ImportedReadsBack(imported: string, ns: seq<nat>)
    requires SpaceFree(imported)
    ensures ReadImported(imported + (" (" + LineNumbersText(ns) + ")")) == Some((imported, ns))
  {
    SplitAfterName(imported, " (" + LineNumbersText(ns) + ")");
    BracketedReadsBack(ns);
  }

  /** The text of a link reads back as that link: its two modules and its line numbers. */
  lemma ImportTextReadsBack(link: DirectImport)
    requires NamesSpaceFree(link)
    ensures ReadImport(ImportText(link)) == Some(link)
  {
    var u := link.imported + (" (" + LineNumbersText(link.lineNumbers) + ")");
    var rest := " -> " + u;
    assert ImportText(link) == link.importer + rest;
    SplitAfterName(link.importer, rest);
    assert rest[..4] == " -> " && rest[4..] == u;
    ImportedReadsBack(link.imported, link.lineNumbers);
  }

  /** Reads a printed link line back: the first link of a chain after its bullet, a further link
      on an indented line. */
  function ReadLinkLine(line: OutputLine): Option<DirectImport> {
    match line
    case Blank => None
    case Text(indented, t) =>
      if indented then ReadImport(t)
      else if |t| >= 4 && t[..4] == "-   " then ReadImport(t[4..])
      else None
  }

  /** One chain: its first link after a bullet, every further link on an indented line, then a
      blank line. */
  function ChainLines(chain: ImportChain): seq<OutputLine> {
    seq(|chain|, i requires 0 <= i < |chain| =>
      if i == 0 then Text(false, "-   " + ImportText(chain[i])) else Text(true, ImportText(chain[i])))
    + [Blank]
  }

  /** A chain prints one line per link, in order, each reading back as its link; only the first
      is bulleted, the rest are indented; a blank line closes the chain. */
  lemma ChainLinesReadBack(chain: ImportChain)
    requires forall i :: 0 <= i < |chain| ==> NamesSpaceFree(chain[i])
    ensures |ChainLines(chain)| == |chain| + 1 && ChainLines(chain)[|chain|] == Blank
    ensures forall i :: 0 <= i < |chain| ==>
              ChainLines(chain)[i].Text? && ChainLines(chain)[i].indented == (i != 0) &&
              ReadLinkLine(ChainLines(chain)[i]) == Some(chain[i])
  {
    var lines := ChainLines(chain);
    forall i | 0 <= i < |chain|
      ensures lines[i].Text? && lines[i].indented == (i != 0) && ReadLinkLine(lines[i]) == Some(chain[i])
    {
      ImportTextReadsBack(chain[i]);
      if i == 0 {
        var t := "-   " + ImportText(chain[0]);
        assert t[..4] == "-   " && t[4..] == ImportText(chain[0]);
      }
    }
  }

  function ChainsLines(chains: seq<ImportChain>): seq<OutputLine>
    decreases |chains|
  {
    if chains == [] then [] else ChainLines(chains[0]) + ChainsLines(chains[1..])
  }

  /** One group: a heading, a blank line, its chains, and a closing blank line. */
  function GroupLines(group: ViolationGroup): seq<OutputLine> {
    [Text(false, group.downstream + " is not allowed to import " + group.upstream + ":"), Blank]
    + ChainsLines(group.chains) + [Blank]
  }

  /** render_broken_contract. */
  function RenderBrokenContract(check: ContractCheck): seq<OutputLine> {
    RenderGroups(check.invalidChains)
  }

  /** The report of every group, in order: three lines per group, one per chain and one per
      link. */
  function RenderGroups(groups: seq<ViolationGroup>): (lines: seq<OutputLine>)
    ensures |lines| == ExpectedLineCount(groups)
    decreases |groups|
  {
    if groups == [] then
      []
    else
      ChainsLinesCount(groups[0].chains);
      GroupLines(groups[0]) + RenderGroups(groups[1..])
  }

  /** The number of links over all chains of a group. */
  function LinkCount(chains: seq<ImportChain>): nat
    decreases |chains|
  {
    if chains == [] then 0 else |chains[0]| + LinkCount(chains[1..])
  }

  /** The number of printed lines: three per group, one per chain, one per link. */
  function ExpectedLineCount(groups: seq<ViolationGroup>): nat
    decreases |groups|
  {
    if groups == [] then 0
    else 3 + |groups[0].chains| + LinkCount(groups[0].chains) + ExpectedLineCount(groups[1..])
  }

  lemma {:induction false} ChainsLinesCount(chains: seq<ImportChain>)
    ensures |ChainsLines(chains)| == |chains| + LinkCount(chains)
    decreases |chains|
  {
    if chains != [] {
      ChainsLinesCount(chains[1..]);
    }
  }

  /** Every link of every chain is printed, with its line numbers, on a line of its own. */
  lemma {:induction false} ChainShowsEveryLink(chains: seq<ImportChain>, k: nat, i: nat)
    requires k < |chains| && i < |chains[k]|
    ensures Text(i != 0, (if i == 0 then "-   " else "") + ImportText(chains[k][i])) in ChainsLines(chains)
    decreases k
  {
    if k == 0 {
      assert ChainLines(chains[0])[i] in ChainsLines(chains);
      assert ("" + ImportText(chains[k][i])) == ImportText(chains[k][i]);
    } else {
      ChainShowsEveryLink(chains[1..], k - 1, i);
    }
  }

  lemma {:induction false} RenderShowsEveryLink(groups: seq<ViolationGroup>, g: nat, k: nat, i: nat)
    requires g < |groups| && k < |groups[g].chains| && i < |groups[g].chains[k]|
    ensures Text(i != 0, (if i == 0 then "-   " else "") + ImportText(groups[g].chains[k][i])) in RenderGroups(groups)
    decreases g
  {
    if g == 0 {
      ChainShowsEveryLink(groups[0].chains, k, i);
    } else {
      RenderShowsEveryLink(groups[1..], g - 1, k, i);
    }
  }
}
