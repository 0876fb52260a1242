/** What load_extras_file of AFL/afl-fuzz.c accepts between the quotes of a dictionary line: every way to spell the
    bytes of a token, and nothing else. */
module TokenSpelling {
  import opened Machine
  import opened TokenEscape

  /** The character d is a hexadecimal digit for v, in either case. */
  ghost predicate IsDigitFor(d: u8, v: u8) {
    if v < 10 then d as int == 48 + v as int
    else v < 16 && (d as int == 65 + v as int - 10 || d as int == 97 + v as int - 10)
  }

  /** The bytes s spell c: as it is, behind a backslash, or as two hexadecimal digits. */
  ghost predicate SpellsByte(s: Bytes, c: u8) {
    || (s == [c] && c != BACKSLASH && !(1 <= c <= 31) && c < 128)
    || (s == [BACKSLASH, c] && (c == BACKSLASH || c == QUOTE))
    || (|s| == 4 && s[0] == BACKSLASH && s[1] == 120 && IsDigitFor(s[2], c / 16) && IsDigitFor(s[3], c % 16))
  }

  /** One byte after the other. */
  ghost predicate Spells(s: Bytes, data: Bytes)
    decreases |data|
  {
    if data == [] then s == [] else exists n: nat :: SpellsFirst(s, data, n)
  }

  ghost predicate SpellsFirst(s: Bytes, data: Bytes, n: nat)
    requires data != []
    decreases |data|, 0
  {
    n <= |s| && SpellsByte(s[..n], data[0]) && Spells(s[n..], data[1..])
  }

  lemma DigitValue(d: u8, v: u8)
    requires v < 16
    ensures IsDigitFor(d, v) <==> IsHex(d) && HexValue(d) == v
  {
  }

  lemma DigitsTaken(s: Bytes, c: u8)
    requires |s| >= 4 && s[0] == BACKSLASH && s[1] == 120 && IsDigitFor(s[2], c / 16) && IsDigitFor(s[3], c % 16)
    ensures Unescape(s) == Prepend([c], Unescape(s[4..]))
  {
    DigitValue(s[2], c / 16);
    DigitValue(s[3], c % 16);
  }

  /** What spells a byte is taken for that byte, and no more. */
  lemma FirstTaken(s: Bytes, n: nat, c: u8)
    requires n <= |s| && SpellsByte(s[..n], c)
    ensures n > 0 && Unescape(s) == Prepend([c], Unescape(s[n..]))
  {
    var e := s[..n];
    assert n == |e| && s[0] == e[0];
    if n == 4 {
      assert s[1] == e[1] && s[2] == e[2] && s[3] == e[3];
      DigitsTaken(s, c);
    } else if n == 2 {
      assert s[1] == e[1];
    }
  }

  /** A spelling is read as the bytes it spells. */
  lemma {:induction false} SpellingIsRead(s: Bytes, data: Bytes)
    requires Spells(s, data)
    ensures Unescape(s) == Keyword(data)
    decreases |data|
  {
    if data != [] {
      var n: nat :| SpellsFirst(s, data, n);
      FirstTaken(s, n, data[0]);
      SpellingIsRead(s[n..], data[1..]);
      assert [data[0]] + data[1..] == data;
    }
  }

  lemma HexParts(h: u8, l: u8, c: u8)
    requires h < 16 && l < 16 && c == 16 * h + l
    ensures c / 16 == h && c % 16 == l
  {
  }

  /** What is taken first is spelled by what it is taken from. */
  lemma FirstSpelled(s: Bytes) returns (n: nat, c: u8)
    requires s != [] && Unescape(s).Keyword?
    ensures 0 < n <= |s| && SpellsByte(s[..n], c) && Unescape(s) == Prepend([c], Unescape(s[n..]))
  {
    if s[0] != BACKSLASH {
      n, c := 1, s[0];
    } else if |s| > 1 && (s[1] == BACKSLASH || s[1] == QUOTE) {
      n, c := 2, s[1];
    } else {
      n, c := 4, 16 * HexValue(s[2]) + HexValue(s[3]);
      HexParts(HexValue(s[2]), HexValue(s[3]), c);
      DigitValue(s[2], c / 16);
      DigitValue(s[3], c % 16);
    }
  }

  lemma {:induction false} ReadIsSpelled(s: Bytes, data: Bytes)
    requires Unescape(s) == Keyword(data)
    ensures Spells(s, data)
    decreases |s|
  {
    if s != [] {
      var n, c := FirstSpelled(s);
      var rest := Unescape(s[n..]).data;
      ReadIsSpelled(s[n..], rest);
      assert data == [c] + rest && data[1..] == rest;
      assert SpellsFirst(s, data, n);
    }
  }

  /** Main result: the reader turns a text into a token exactly if the text spells it, with
      digits in either case and with backslashes or without. */
  lemma ReadsExactly(s: Bytes, data: Bytes)
    ensures Unescape(s) == Keyword(data) <==> Spells(s, data)
  {
    if Spells(s, data) {
      SpellingIsRead(s, data);
    }
    if Unescape(s) == Keyword(data) {
      ReadIsSpelled(s, data);
    }
  }

  /** Any other text is an error. */
  lemma FailsExactly(s: Bytes, data: Bytes)
    ensures if Unescape(s).Fatal? then !Spells(s, data) else Unescape(s).Keyword? && Spells(s, Unescape(s).data)
  {
    NeverSkipped(s);
    if Unescape(s).Keyword? {
      ReadIsSpelled(s, Unescape(s).data);
    } else if Spells(s, data) {
      SpellingIsRead(s, data);
    }
  }

  lemma {:induction false} NeverSkipped(s: Bytes)
    ensures !Unescape(s).Skipped?
    decreases |s|
  {
    if s == [] || 1 <= s[0] <= 31 || 128 <= s[0] {
    } else if s[0] != BACKSLASH {
      NeverSkipped(s[1..]);
    } else if |s| > 1 && (s[1] == BACKSLASH || s[1] == QUOTE) {
      NeverSkipped(s[2..]);
    } else if |s| >= 4 {
      NeverSkipped(s[4..]);
    }
  }
}
