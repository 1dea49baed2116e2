/** What the text of /proc/kallsyms may look like: which lines are entries, how
    numbers are read and shown, how lines end. */
module KallsymsText {
  import opened Machine
  import opened Kallsyms

  // ---------- numbers ----------

  function LowerChar(c: char): char {
    if 'A' <= c <= 'Z' then (c as int - 'A' as int + 'a' as int) as char else c
  }

  function Lower(s: string): (r: string)
    ensures |r| == |s| && forall i :: 0 <= i < |s| ==> r[i] == LowerChar(s[i])
  {
    seq(|s|, i requires 0 <= i < |s| => LowerChar(s[i]))
  }

  predicate IsHexDigit(c: char) { '0' <= c <= '9' || 'a' <= c <= 'f' || 'A' <= c <= 'F' }

  lemma {:induction false} DigitsValueLower(s: string)
    ensures DigitsValue(Lower(s)) == DigitsValue(s)
  {
    if s != "" {
      var n := |s| - 1;
      assert Lower(s)[..n] == Lower(s[..n]);
      DigitsValueLower(s[..n]);
    }
  }

  lemma {:induction false} DigitsValueSome(s: string)
    ensures DigitsValue(s).Some? <==> forall i :: 0 <= i < |s| ==> IsHexDigit(s[i])
  {
    if s != "" {
      var n := |s| - 1;
      DigitsValueSome(s[..n]);
      assert forall i :: 0 <= i < n ==> s[..n][i] == s[i];
    }
  }

  /** Upper-case digits read as lower-case ones; one leading plus sign is allowed;
      anything else that is not a digit, no digit at all, and a value of 2^64 or
      more are not numbers. */
  lemma NumbersExactly(s: string)
    ensures ParseHex(Lower(s)) == ParseHex(s)
    ensures s != "" && s[0] != '+' ==> ParseHex("+" + s) == ParseHex(s)
    ensures ParseHex("") == None && ParseHex("+") == None
    ensures s != "" && s[0] != '+' && (exists i :: 0 <= i < |s| && !IsHexDigit(s[i])) ==> ParseHex(s) == None
  {
    DigitsValueLower(s);
    DigitsValueSome(s);
    if |s| > 1 && s[0] == '+' {
      assert Lower(s)[1..] == Lower(s[1..]);
      DigitsValueLower(s[1..]);
    }
    if s != "" { assert ("+" + s)[1..] == s; }
    DigitsValueSome("+");
    assert "+"[0] == '+' && !IsHexDigit('+');
  }

  /** An address too large for 64 bits is not a number. */
  lemma TooLargeIsNotANumber(a: nat, width: nat)
    requires 0x1_0000_0000_0000_0000 <= a < Pow16(width)
    ensures ParseHex(HexFixed(a, width)) == None
  {
    HexFixedValue(a, width);
    hide HexFixed, DigitsValue, Pow16;
    if width > 0 { assert HexDigit(HexFixed(a, width)[0]).Some?; }
  }

  lemma {:induction false} HexLowerReads(n: nat)
    ensures var s := HexLower(n);
            && DigitsValue(s) == Some(n) && |s| > 0
            && (forall i :: 0 <= i < |s| ==> '0' <= s[i] <= '9' || 'a' <= s[i] <= 'f')
            && (n > 0 ==> s[0] != '0')
  {
    var s := HexLower(n);
    if n < 16 {
      var none: string := "";
      assert s[..0] == none;
      assert DigitsValue(none) == Some(0);
      assert HexDigit(DigitChar(n)) == Some(n);
    } else {
      HexLowerReads(n / 16);
      assert s[..|s| - 1] == HexLower(n / 16);
      assert HexDigit(DigitChar(n % 16)) == Some(n % 16);
    }
  }

  /** The fallback of a lookup shows the address in lower-case hexadecimal without
      leading zeros: reading it back gives the address. */
  lemma FallbackShowsTheAddress(syms: seq<Symbol>, ip: u64)
    requires Sorted(syms) && syms != [] && ip > 0 && forall i :: 0 <= i < |syms| ==> syms[i].0 > ip
    ensures var name := Lookup(syms, ip);
            && |name| > 2 && name[..2] == "0x" && ParseHex(name[2..]) == Some(ip) && name[2] != '0'
            && forall i :: 2 <= i < |name| ==> '0' <= name[i] <= '9' || 'a' <= name[i] <= 'f'
  {
    HexLowerReads(ip);
    hide HexLower, DigitsValue;
    var name := "0x" + HexLower(ip);
    assert Lookup(syms, ip) == name;
    assert name[2..] == HexLower(ip) && name[2] == HexLower(ip)[0];
  }

  /** Without symbols, or for address zero, a lookup shows a question mark. */
  lemma NothingToLookUp(syms: seq<Symbol>, ip: u64)
    requires Sorted(syms) && (syms == [] || ip == 0)
    ensures Lookup(syms, ip) == "?"
  {
  }

  // ---------- lines ----------

  lemma EndedLine(b: string, rest: string)
    requires '\n' !in b
    ensures Lines(b + "\n" + rest) == [StripCr(b)] + Lines(rest)
  {
    var text := b + "\n" + rest;
    FindAt(text, '\n', |b|);
    hide Find, StripCr;
    assert text[..|b|] == b && text[|b| + 1..] == rest;
  }

  /** A line ends in "\n" or "\r\n"; the last needs no end, and keeps a carriage
      return if it has no newline after it. */
  lemma LineEnds(line: string, rest: string)
    requires '\n' !in line
    ensures Lines(line + "\r\n" + rest) == [line] + Lines(rest)
    ensures line == "" || line[|line| - 1] != '\r' ==> Lines(line + "\n" + rest) == [line] + Lines(rest)
    ensures line != "" ==> Lines(line) == [line]
  {
    var cr := line + "\r";
    assert line + "\r\n" + rest == cr + "\n" + rest;
    EndedLine(cr, rest);
    assert StripCr(cr) == line by { assert cr[..|cr| - 1] == line; }
    EndedLine(line, rest);
    FindNone(line, '\n');
    hide Find;
  }

  // ---------- fields ----------

  predicate UpToTab(name: string, field: string) {
    name <= field && '\t' !in name && (|name| < |field| ==> field[|name|] == '\t')
  }

  /** The line splits at its first two spaces into an address, a kind and a name,
      the name possibly followed by a tab and a module. */
  ghost predicate Splits(line: string, hex: string, kind: string, field: string) {
    ' ' !in hex && ' ' !in kind && line == hex + " " + kind + " " + field
  }

  lemma UpToTabIs(field: string)
    ensures UpToTab(field[..Find(field, '\t')], field)
  {
    var n := Find(field, '\t');
    assert field[..n] <= field;
  }

  lemma UpToTabUnique(name: string, field: string)
    requires UpToTab(name, field)
    ensures name == field[..Find(field, '\t')]
  {
    if |name| < |field| {
      assert forall i :: 0 <= i < |name| ==> field[i] == name[i] && name[i] in name;
      FindAt(field, '\t', |name|);
    } else {
      assert name == field;
      FindNone(field, '\t');
    }
    hide Find;
    assert field[..|name|] == name;
  }

  /** The first space of a text built around one, and the parts beside it. */
  lemma FirstSpace(a: string, b: string)
    requires ' ' !in a
    ensures var s := a + " " + b; Find(s, ' ') == |a| < |s| && s[..|a|] == a && s[|a| + 1..] == b
  {
    var s := a + " " + b;
    assert forall i :: 0 <= i < |a| ==> s[i] == a[i] && a[i] in a;
    FindAt(s, ' ', |a|);
  }

  lemma Regroup(hex: string, kind: string, field: string)
    ensures hex + " " + kind + " " + field == hex + " " + (kind + " " + field)
  {
    assert hex + " " + (kind + " " + field) == hex + " " + (kind + " ") + field;
    assert hex + " " + (kind + " ") == hex + " " + kind + " ";
  }

  lemma ParseOfSplit(line: string, hex: string, kind: string, field: string)
    requires Splits(line, hex, kind, field)
    ensures ParseLine(line)
            == var addr := ParseHex(hex);
               if addr.None? || addr.value == 0 then None else Some((addr.value, field[..Find(field, '\t')]))
  {
    hide ParseHex, Find;
    Regroup(hex, kind, field);
    FirstSpace(hex, kind + " " + field);
    FirstSpace(kind, field);
  }

  lemma SplitAtSpace(s: string) returns (a: string, b: string)
    requires Find(s, ' ') < |s|
    ensures s == a + " " + b && ' ' !in a && b == s[Find(s, ' ') + 1..]
  {
    var i := Find(s, ' ');
    a, b := s[..i], s[i + 1..];
    hide Find;
    assert s == s[..i] + [s[i]] + s[i + 1..];
  }

  lemma SplitOfParse(line: string) returns (hex: string, kind: string, field: string)
    requires ParseLine(line).Some?
    ensures Splits(line, hex, kind, field)
  {
    hide ParseHex, Find;
    var rest;
    hex, rest := SplitAtSpace(line);
    kind, field := SplitAtSpace(rest);
    hide ParseLine;
    Regroup(hex, kind, field);
  }

  /** Exactly which lines are entries, and of what: those that split at two spaces,
      with an address that is a number other than zero; the name ends at a tab. All
      other lines are passed over. */
  lemma EntriesExactly(line: string, addr: u64, name: string)
    ensures ParseLine(line) == Some((addr, name))
            <==> addr != 0 && exists hex, kind, field ::
                   Splits(line, hex, kind, field) && ParseHex(hex) == Some(addr) && UpToTab(name, field)
  {
    hide ParseLine, ParseHex, Find;
    if ParseLine(line) == Some((addr, name)) {
      var hex, kind, field := SplitOfParse(line);
      ParseOfSplit(line, hex, kind, field);
      UpToTabIs(field);
      assert Splits(line, hex, kind, field) && ParseHex(hex) == Some(addr) && UpToTab(name, field);
    }
    if hex, kind, field :| addr != 0 && Splits(line, hex, kind, field) && ParseHex(hex) == Some(addr)
                           && UpToTab(name, field) {
      ParseOfSplit(line, hex, kind, field);
      UpToTabUnique(name, field);
    }
  }
}
