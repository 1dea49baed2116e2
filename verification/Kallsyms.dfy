/** The kernel symbol index: parsing /proc/kallsyms, a sorted table, and lookup
    by binary search, against a linear scan of the file. */
module Kallsyms {
  import opened Machine

  type Symbol = (u64, string)

  // ---------- text to entries ----------

  /** Position of the first `c`, or |s|. */
  function Find(s: string, c: char): (i: nat)
    ensures i <= |s| && c !in s[..i]
    ensures i < |s| ==> s[i] == c
  {
    if |s| == 0 || s[0] == c then 0
    else
      var i := 1 + Find(s[1..], c);
      assert s[..i] == [s[0]] + s[1..][..i - 1];
      i
  }

  function StripCr(line: string): string {
    if |line| > 0 && line[|line| - 1] == '\r' then line[..|line| - 1] else line
  }

  /** `str::lines`: a line ends in "\n" or "\r\n"; the last ending is optional. */
  function Lines(text: string): seq<string> {
    if text == "" then []
    else
      var i := Find(text, '\n');
      if i == |text| then [text] else [StripCr(text[..i])] + Lines(text[i + 1..])
  }

  function HexDigit(c: char): Option<nat> {
    if '0' <= c <= '9' then Some(c as int - '0' as int)
    else if 'a' <= c <= 'f' then Some(c as int - 'a' as int + 10)
    else if 'A' <= c <= 'F' then Some(c as int - 'A' as int + 10)
    else None
  }

  function DigitsValue(s: string): Option<nat> {
    if s == "" then Some(0)
    else
      var hi, lo := DigitsValue(s[..|s| - 1]), HexDigit(s[|s| - 1]);
      if hi.Some? && lo.Some? then Some(hi.value * 16 + lo.value) else None
  }

  /** `u64::from_str_radix(s, 16)`: an optional plus sign, at least one digit, no overflow. */
  function ParseHex(s: string): Option<u64> {
    var digits := if |s| > 1 && s[0] == '+' then s[1..] else s;
    var v := DigitsValue(digits);
    if digits != "" && v.Some? && v.value < TWO64 then Some(v.value) else None
  }

  /** One line: "<hex> <type> <name>[\t<module>]", split at the first two
      spaces; a malformed line or a zero address contributes nothing. */
  function ParseLine(line: string): Option<Symbol> {
    var i := Find(line, ' ');
    if i == |line| then None
    else
      var rest := line[i + 1..];
      var j := Find(rest, ' ');
      if j == |rest| then None
      else
        var name := rest[j + 1..];
        var addr := ParseHex(line[..i]);
        if addr.None? || addr.value == 0 then None
        else Some((addr.value, name[..Find(name, '\t')]))
  }

  /** The entries of a file, in file order. */
  function Entries(lines: seq<string>): seq<Symbol> {
    if |lines| == 0 then []
    else
      var before, e := Entries(lines[..|lines| - 1]), ParseLine(lines[|lines| - 1]);
      if e.Some? then before + [e.value] else before
  }

  // ---------- the sorted table ----------

  ghost predicate Sorted(s: seq<Symbol>) {
    forall i, j :: 0 <= i < j < |s| ==> s[i].0 <= s[j].0
  }

  /** `partition_point(|(a, _)| *a <= ip)`: binary search between lo and hi. */
  function Partition(s: seq<Symbol>, ip: u64, lo: nat, hi: nat): (p: nat)
    requires Sorted(s) && lo <= hi <= |s|
    requires forall i :: 0 <= i < lo ==> s[i].0 <= ip
    requires forall i :: hi <= i < |s| ==> s[i].0 > ip
    ensures lo <= p <= hi
    ensures forall i :: 0 <= i < p ==> s[i].0 <= ip
    ensures forall i :: p <= i < |s| ==> s[i].0 > ip
    decreases hi - lo
  {
    if lo == hi then lo
    else
      var mid := lo + (hi - lo) / 2;
      if s[mid].0 <= ip then Partition(s, ip, mid + 1, hi) else Partition(s, ip, lo, mid)
  }

  function PartitionPoint(s: seq<Symbol>, ip: u64): (p: nat)
    requires Sorted(s)
    ensures p <= |s|
    ensures forall i :: 0 <= i < p ==> s[i].0 <= ip
    ensures forall i :: p <= i < |s| ==> s[i].0 > ip
  {
    Partition(s, ip, 0, |s|)
  }

  /** Insertion behind the entries that are not above e. */
  function InsertAfter(s: seq<Symbol>, e: Symbol): (r: seq<Symbol>)
    requires Sorted(s)
    ensures Sorted(r) && |r| == |s| + 1
  {
    var p := PartitionPoint(s, e.0);
    s[..p] + [e] + s[p..]
  }

  /** Stable sort by address: each entry goes after those of the same address. */
  function StableSort(es: seq<Symbol>): (r: seq<Symbol>)
    ensures Sorted(r) && |r| == |es|
  {
    if |es| == 0 then []
    else
      InsertAfter(StableSort(es[..|es| - 1]), es[|es| - 1])
  }

  function WithAddress(es: seq<Symbol>, a: u64): seq<Symbol> {
    if |es| == 0 then []
    else WithAddress(es[..|es| - 1], a) + if es[|es| - 1].0 == a then [es[|es| - 1]] else []
  }

  lemma {:induction false} WithAddressConcat(x: seq<Symbol>, y: seq<Symbol>, a: u64)
    ensures WithAddress(x + y, a) == WithAddress(x, a) + WithAddress(y, a)
  {
    if |y| == 0 {
      assert x + y == x;
    } else {
      assert (x + y)[..|x + y| - 1] == x + y[..|y| - 1];
      WithAddressConcat(x, y[..|y| - 1], a);
    }
  }

  lemma {:induction false} WithAddressNone(x: seq<Symbol>, a: u64)
    requires forall i :: 0 <= i < |x| ==> x[i].0 != a
    ensures WithAddress(x, a) == []
  {
    if |x| > 0 { WithAddressNone(x[..|x| - 1], a); }
  }

  /** An insertion puts e between those not above it and those above it. */
  lemma InsertAfterSplits(s: seq<Symbol>, e: Symbol) returns (x: seq<Symbol>, y: seq<Symbol>)
    requires Sorted(s)
    ensures s == x + y && InsertAfter(s, e) == x + [e] + y
    ensures forall i :: 0 <= i < |y| ==> y[i].0 > e.0
  {
    var p := PartitionPoint(s, e.0);
    x, y := s[..p], s[p..];
  }

  lemma WithAddressSplice(x: seq<Symbol>, e: Symbol, y: seq<Symbol>, a: u64)
    ensures WithAddress(x + [e] + y, a) == WithAddress(x, a) + (if e.0 == a then [e] else []) + WithAddress(y, a)
    ensures WithAddress(x + y, a) == WithAddress(x, a) + WithAddress(y, a)
  {
    WithAddressConcat(x + [e], y, a);
    WithAddressConcat(x, [e], a);
    WithAddressConcat(x, y, a);
    assert [e][..0] == [];
  }

  lemma InsertAfterKeeps(s: seq<Symbol>, e: Symbol, a: u64)
    requires Sorted(s)
    ensures WithAddress(InsertAfter(s, e), a) == WithAddress(s, a) + if e.0 == a then [e] else []
    ensures multiset(InsertAfter(s, e)) == multiset(s) + multiset{e}
  {
    hide PartitionPoint, InsertAfter, WithAddress, Sorted;
    var x, y := InsertAfterSplits(s, e);
    if e.0 == a { WithAddressNone(y, a); }
    WithAddressSplice(x, e, y, a);
  }

  /** Sorting keeps the file order of entries that share an address, and loses none. */
  lemma {:induction false} SortIsStable(es: seq<Symbol>, a: u64)
    ensures WithAddress(StableSort(es), a) == WithAddress(es, a)
    ensures multiset(StableSort(es)) == multiset(es)
  {
    if |es| > 0 {
      var before, e := es[..|es| - 1], es[|es| - 1];
      assert es == before + [e];
      SortIsStable(before, a);
      InsertAfterKeeps(StableSort(before), e, a);
      hide InsertAfter;
    }
  }

  /** `Kallsyms::load` on the text of the file. */
  method Load(text: string) returns (syms: seq<Symbol>)
    ensures syms == StableSort(Entries(Lines(text)))
  {
    var lines := Lines(text);
    syms := [];
    for n := 0 to |lines|
      invariant syms == Entries(lines[..n])
    {
      assert lines[..n + 1][..n] == lines[..n];
      var e := ParseLine(lines[n]);
      if e.None? { continue; }
      syms := syms + [e.value];
    }
    assert lines[..|lines|] == lines;
    syms := StableSort(syms);
  }

  // ---------- lookup ----------

  function DigitChar(d: nat): char
    requires d < 16
  {
    if d < 10 then ('0' as int + d) as char else ('a' as int + d - 10) as char
  }

  /** `{:x}`: lower-case hexadecimal without leading zeros. */
  function HexLower(n: nat): string {
    if n < 16 then [DigitChar(n)] else HexLower(n / 16) + [DigitChar(n % 16)]
  }

  function Lookup(syms: seq<Symbol>, ip: u64): string
    requires Sorted(syms)
  {
    if ip == 0 || syms == [] then "?"
    else
      var idx := PartitionPoint(syms, ip);
      if idx == 0 then "0x" + HexLower(ip) else syms[idx - 1].1
  }

  /** Linear scan in file order: the last entry among those with the greatest
      address not above ip. */
  function ScanBest(es: seq<Symbol>, ip: u64): Option<Symbol> {
    if |es| == 0 then None
    else
      var best, e := ScanBest(es[..|es| - 1], ip), es[|es| - 1];
      if e.0 <= ip && (best.None? || e.0 >= best.value.0) then Some(e) else best
  }

  /** What the scan finds: the entry at i is at or below ip, nothing at or below
      ip is higher, and nothing later in the file has the same address. */
  lemma {:induction false} ScanBestIsLastGreatest(es: seq<Symbol>, ip: u64) returns (i: int)
    ensures ScanBest(es, ip).None? ==> forall k :: 0 <= k < |es| ==> es[k].0 > ip
    ensures ScanBest(es, ip).Some? ==>
              && 0 <= i < |es| && ScanBest(es, ip).value == es[i] && es[i].0 <= ip
              && (forall k :: 0 <= k < |es| && es[k].0 <= ip ==> es[k].0 <= es[i].0)
              && (forall k :: i < k < |es| ==> es[k].0 != es[i].0)
  {
    i := -1;
    if |es| > 0 {
      var n := |es| - 1;
      i := ScanBestIsLastGreatest(es[..n], ip);
      var best := ScanBest(es[..n], ip);
      assert forall k :: 0 <= k < n ==> es[..n][k] == es[k];
      if es[n].0 <= ip && (best.None? || es[n].0 >= best.value.0) { i := n; }
    }
  }

  function Scan(es: seq<Symbol>, ip: u64): string {
    if ip == 0 || es == [] then "?"
    else
      var best := ScanBest(es, ip);
      if best.None? then "0x" + HexLower(ip) else best.value.1
  }

  lemma PartitionUnique(s: seq<Symbol>, ip: u64, p: nat)
    requires Sorted(s) && p <= |s|
    requires p > 0 ==> s[p - 1].0 <= ip
    requires p < |s| ==> s[p].0 > ip
    ensures PartitionPoint(s, ip) == p
  {
  }

  lemma PartitionMonotone(s: seq<Symbol>, a: u64, b: u64)
    requires Sorted(s) && a <= b
    ensures PartitionPoint(s, a) <= PartitionPoint(s, b)
  {
    var q := PartitionPoint(s, b);
    assert q < |s| ==> s[q].0 > a;
  }

  /** How an insertion moves the entry a lookup lands on. */
  lemma InsertAfterLookup(s: seq<Symbol>, e: Symbol, ip: u64)
    requires Sorted(s)
    ensures var p, s' := PartitionPoint(s, ip), InsertAfter(s, e);
            var p' := PartitionPoint(s', ip);
            if e.0 <= ip
            then p' == p + 1 && s'[p] == if p == 0 || s[p - 1].0 <= e.0 then e else s[p - 1]
            else p' == p && (p > 0 ==> s'[p - 1] == s[p - 1])
  {
    var at, p := PartitionPoint(s, e.0), PartitionPoint(s, ip);
    var s' := InsertAfter(s, e);
    if e.0 <= ip {
      PartitionMonotone(s, e.0, ip);
      assert at < p ==> s[at].0 > e.0;
      assert s'[p] == if at == p then e else s[p - 1];
      assert p < |s| ==> s'[p + 1] == s[p];
      PartitionUnique(s', ip, p + 1);
    } else {
      PartitionMonotone(s, ip, e.0);
      assert p > 0 ==> s'[p - 1] == s[p - 1];
      PartitionUnique(s', ip, p);
    }
  }

  /** What a lookup of ip lands on. */
  function Landing(s: seq<Symbol>, ip: u64): Option<Symbol>
    requires Sorted(s)
  {
    var p := PartitionPoint(s, ip);
    if p == 0 then None else Some(s[p - 1])
  }

  lemma LandingAfterInsert(s: seq<Symbol>, e: Symbol, ip: u64)
    requires Sorted(s)
    ensures var best := Landing(s, ip);
            Landing(InsertAfter(s, e), ip)
            == if e.0 <= ip && (best.None? || e.0 >= best.value.0) then Some(e) else best
  {
    InsertAfterLookup(s, e, ip);
    hide InsertAfter, PartitionPoint;
  }

  /** The binary search lands on the entry the scan finds. */
  lemma {:induction false} SortedFindsScanned(es: seq<Symbol>, ip: u64)
    ensures ScanBest(es, ip) == Landing(StableSort(es), ip)
  {
    hide InsertAfter, PartitionPoint;
    if |es| > 0 {
      var before := es[..|es| - 1];
      SortedFindsScanned(before, ip);
      LandingAfterInsert(StableSort(before), es[|es| - 1], ip);
      hide Landing;
    }
  }

  /** Main result. For every file and every instruction pointer, looking it up
      in the loaded table gives what a linear scan of the file gives. */
  lemma LookupAgreesWithScan(text: string, ip: u64)
    ensures Lookup(StableSort(Entries(Lines(text))), ip) == Scan(Entries(Lines(text)), ip)
  {
    hide StableSort, Entries, Lines;
    SortedFindsScanned(Entries(Lines(text)), ip);
  }

  // ---------- rendering and loading back ----------

  /** One line as the kernel prints it. */
  datatype Line = Line(addr: u64, kind: char, name: string, mod: Option<string>)

  function HexFixed(a: nat, width: nat): string {
    if width == 0 then "" else HexFixed(a / 16, width - 1) + [DigitChar(a % 16)]
  }

  function Tail(l: Line): string {
    if l.mod.Some? then "\t[" + l.mod.value + "]" else ""
  }

  function Body(l: Line): string {
    HexFixed(l.addr, 16) + " " + [l.kind] + " " + l.name + Tail(l)
  }

  function Render(ls: seq<Line>): string {
    if |ls| == 0 then "" else Body(ls[0]) + "\n" + Render(ls[1..])
  }

  /** Fields that do not contain their own separators. */
  predicate Clean(l: Line) {
    && l.kind != ' ' && l.kind != '\n'
    && '\n' !in l.name && '\t' !in l.name
    && (l.mod.Some? ==> '\n' !in l.mod.value)
    && (l.mod.None? && |l.name| > 0 ==> l.name[|l.name| - 1] != '\r')
  }

  function Kept(ls: seq<Line>): seq<Symbol> {
    if |ls| == 0 then [] else (if ls[0].addr == 0 then [] else [(ls[0].addr, ls[0].name)]) + Kept(ls[1..])
  }

  function Pow16(n: nat): nat { if n == 0 then 1 else 16 * Pow16(n - 1) }

  lemma {:induction false} HexFixedValue(a: nat, width: nat)
    requires a < Pow16(width)
    ensures |HexFixed(a, width)| == width
    ensures DigitsValue(HexFixed(a, width)) == Some(a)
    ensures forall i :: 0 <= i < width ==> HexDigit(HexFixed(a, width)[i]).Some?
  {
    if width > 0 {
      var hi := HexFixed(a / 16, width - 1);
      HexFixedValue(a / 16, width - 1);
      assert HexFixed(a, width)[..width - 1] == hi;
      assert HexFixed(a, width) == hi + [DigitChar(a % 16)];
      assert HexDigit(DigitChar(a % 16)) == Some(a % 16);
    }
  }

  lemma FindAt(s: string, c: char, i: nat)
    requires i < |s| && s[i] == c && forall k :: 0 <= k < i ==> s[k] != c
    ensures Find(s, c) == i
  {
    if i > 0 { FindAt(s[1..], c, i - 1); }
  }

  lemma FindNone(s: string, c: char)
    requires c !in s
    ensures Find(s, c) == |s|
  {
  }

  /** A line split at its first two spaces. */
  lemma ParseParts(hex: string, kind: char, name: string)
    requires kind != ' ' && forall i :: 0 <= i < |hex| ==> hex[i] != ' '
    ensures ParseLine(hex + " " + ([kind] + " " + name))
            == var addr := ParseHex(hex);
               if addr.None? || addr.value == 0 then None else Some((addr.value, name[..Find(name, '\t')]))
  {
    hide Find, ParseHex;
    var rest := [kind] + " " + name;
    var line := hex + " " + rest;
    FindAt(line, ' ', |hex|);
    assert line[..|hex|] == hex && line[|hex| + 1..] == rest;
    FindAt(rest, ' ', 1);
    assert rest[2..] == name;
  }

  lemma NameWithoutModule(l: Line)
    requires Clean(l)
    ensures var name := l.name + Tail(l); name[..Find(name, '\t')] == l.name
  {
    var name := l.name + Tail(l);
    if l.mod.Some? { FindAt(name, '\t', |l.name|); } else { FindNone(name, '\t'); }
    hide Find;
    assert name[..|l.name|] == l.name;
  }

  lemma Pow16Is()
    ensures Pow16(16) == TWO64
  {
    assert Pow16(4) == 0x1_0000;
    assert Pow16(8) == 0x1_0000 * Pow16(4);
    assert Pow16(12) == 0x1_0000 * Pow16(8);
    assert Pow16(16) == 0x1_0000 * Pow16(12);
  }

  lemma HexOfAddress(a: u64)
    ensures var hex := HexFixed(a, 16);
            |hex| == 16 && ParseHex(hex) == Some(a)
            && forall i :: 0 <= i < 16 ==> hex[i] != ' ' && hex[i] != '\n'
  {
    Pow16Is();
    HexFixedValue(a, 16);
    hide HexFixed, DigitsValue, Pow16;
    assert HexDigit(HexFixed(a, 16)[0]).Some?;
  }

  lemma ParseBody(l: Line)
    requires Clean(l)
    ensures ParseLine(Body(l)) == if l.addr == 0 then None else Some((l.addr, l.name))
  {
    var hex, name := HexFixed(l.addr, 16), l.name + Tail(l);
    assert Body(l) == hex + " " + ([l.kind] + " " + name);
    hide HexFixed, ParseHex, Body, Find, ParseLine, Tail;
    HexOfAddress(l.addr);
    ParseParts(hex, l.kind, name);
    NameWithoutModule(l);
  }

  function Bodies(ls: seq<Line>): (r: seq<string>)
    ensures |r| == |ls|
  {
    if |ls| == 0 then [] else [Body(ls[0])] + Bodies(ls[1..])
  }

  lemma LinesCons(b: string, rest: string)
    requires '\n' !in b && StripCr(b) == b
    ensures Lines(b + "\n" + rest) == [b] + Lines(rest)
  {
    var text := b + "\n" + rest;
    FindAt(text, '\n', |b|);
    hide Find, StripCr;
    assert text[..|b|] == b && text[|b| + 1..] == rest;
  }

  lemma BodyHasNoNewline(l: Line)
    requires Clean(l)
    ensures '\n' !in Body(l) && StripCr(Body(l)) == Body(l)
  {
    HexOfAddress(l.addr);
    var b := Body(l);
    assert b == HexFixed(l.addr, 16) + (" " + [l.kind] + " " + l.name + Tail(l));
    hide HexFixed, ParseHex, Body;
    assert b[|b| - 1] == if l.mod.Some? then ']' else if |l.name| > 0 then l.name[|l.name| - 1] else ' ';
  }

  lemma {:induction false} LinesOfRender(ls: seq<Line>)
    requires forall i :: 0 <= i < |ls| ==> Clean(ls[i])
    ensures Lines(Render(ls)) == Bodies(ls)
  {
    if |ls| > 0 {
      hide Body, Lines, Clean;
      BodyHasNoNewline(ls[0]);
      LinesCons(Body(ls[0]), Render(ls[1..]));
      LinesOfRender(ls[1..]);
    }
  }

  lemma {:induction false} EntriesConcat(x: seq<string>, y: seq<string>)
    ensures Entries(x + y) == Entries(x) + Entries(y)
  {
    if |y| == 0 {
      assert x + y == x;
    } else {
      assert (x + y)[..|x + y| - 1] == x + y[..|y| - 1];
      EntriesConcat(x, y[..|y| - 1]);
    }
  }

  lemma EntriesOfOne(line: string)
    ensures Entries([line]) == if ParseLine(line).Some? then [ParseLine(line).value] else []
  {
    hide ParseLine;
    assert [line][..0] == [];
    assert Entries([line][..0]) == [];
  }

  lemma {:induction false} EntriesOfBodies(ls: seq<Line>)
    requires forall i :: 0 <= i < |ls| ==> Clean(ls[i])
    ensures Entries(Bodies(ls)) == Kept(ls)
  {
    if |ls| > 0 {
      hide Body, ParseLine, Clean, Entries;
      EntriesOfBodies(ls[1..]);
      ParseBody(ls[0]);
      EntriesOfOne(Body(ls[0]));
      EntriesConcat([Body(ls[0])], Bodies(ls[1..]));
    } else {
      assert Entries([]) == [];
    }
  }

  /** Round trip: loading a rendered symbol list yields exactly its entries with
      a non-zero address, stably sorted, module suffixes gone. */
  lemma LoadOfRender(ls: seq<Line>)
    requires forall i :: 0 <= i < |ls| ==> Clean(ls[i])
    ensures StableSort(Entries(Lines(Render(ls)))) == StableSort(Kept(ls))
  {
    LinesOfRender(ls);
    EntriesOfBodies(ls);
  }
}
