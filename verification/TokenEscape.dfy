/** Dictionary lines: __tokencap_dump of AFL/libtokencap/libtokencap.so.c writes them and
    load_extras_file of AFL/afl-fuzz.c reads them back.

    In text mode a token that begins with NUL is the one kind that does not read back. */
module TokenEscape {
  import opened Machine

  type Bytes = seq<u8>

  const MIN_AUTO_EXTRA: nat := 3
  const MAX_AUTO_EXTRA: nat := 32
  const MAX_DICT_FILE: nat := 128

  const QUOTE: u8 := 34
  const BACKSLASH: u8 := 92
  const NEWLINE: u8 := 10

  /** A string as C sees it: up to the first NUL. */
  function BeforeNul(s: Bytes): (r: Bytes)
    ensures r <= s && 0 !in r
    ensures r == s || s[|r|] == 0
  {
    if s == [] || s[0] == 0 then []
    else
      var r := BeforeNul(s[1..]);
      assert s == [s[0]] + s[1..];
      [s[0]] + r
  }

  // ------------------------------------------------------------------ the writer

  function HexDigit(n: u8): u8
    requires n < 16
  {
    if n < 10 then 48 + n else 87 + n
  }

  predicate NeedsEscape(c: u8) {
    c <= 31 || 127 <= c || c == QUOTE || c == BACKSLASH
  }

  function EscapeByte(c: u8): Bytes {
    if NeedsEscape(c) then [BACKSLASH, 120, HexDigit(c / 16), HexDigit(c % 16)] else [c]
  }

  function Escape(t: Bytes): (r: Bytes) {
    if t == [] then [] else EscapeByte(t[0]) + Escape(t[1..])
  }

  /** The line written for a token. */
  function DumpLine(t: Bytes): Bytes {
    [QUOTE] + Escape(t) + [QUOTE, NEWLINE]
  }

  lemma EscapeCons(c: u8, t: Bytes, e: Bytes)
    requires e == EscapeByte(c)
    ensures Escape([c] + t) == e + Escape(t)
  {
    assert ([c] + t)[1..] == t;
  }

  lemma Assoc(a: Bytes, b: Bytes, c: Bytes)
    ensures a + b + c == a + (b + c)
  {
  }

  lemma {:induction false} EscapeAppend(s: Bytes, t: Bytes)
    ensures Escape(s + t) == Escape(s) + Escape(t)
  {
    if s == [] {
      assert s + t == t;
    } else {
      var c, e := s[0], EscapeByte(s[0]);
      EscapeAppend(s[1..], t);
      EscapeCons(c, s[1..], e);
      EscapeCons(c, s[1..] + t, e);
      assert s == [c] + s[1..];
      Assoc([c], s[1..], t);
      Assoc(e, Escape(s[1..]), Escape(t));
    }
  }

  /** The escaped form is all printable, has no bare quote, and is at most four times as long. */
  lemma {:induction false} EscapePlain(t: Bytes)
    ensures |t| <= |Escape(t)| <= 4 * |t|
    ensures forall c <- Escape(t) :: 32 <= c <= 126 && c != QUOTE
  {
    if t != [] {
      EscapePlain(t[1..]);
    }
  }

  /** Returns the line, or nothing for a token of the wrong length.  The buffer is never
      overrun, counting the terminator that sprintf writes. */
  method Dump(ptr: Bytes, isText: bool) returns (line: Bytes)
    ensures if 3 <= |ptr| <= 32
            then line == DumpLine(if isText then BeforeNul(ptr) else ptr) && |line| <= 4 * 32 + 3
            else line == []
  {
    if |ptr| < MIN_AUTO_EXTRA || |ptr| > MAX_AUTO_EXTRA {
      return [];
    }
    var buf := new u8[MAX_AUTO_EXTRA * 4 + 1];
    var i: nat, pos: nat := 0, 0;
    while i < |ptr| && !(isText && ptr[i] == 0)
      invariant i <= |ptr| && pos <= 4 * i
      invariant isText ==> 0 !in ptr[..i]
      invariant buf[..pos] == Escape(ptr[..i])
    {
      pos := DumpByte(buf, pos, ptr[i]);
      DumpStep(ptr, i);
      i := i + 1;
    }
    buf[pos] := 0;
    assert i == |ptr| ==> ptr[..i] == ptr;
    if isText {
      NulAt(ptr, i);
    }
    EscapePlain(ptr[..i]);
    line := [QUOTE] + buf[..pos] + [QUOTE, NEWLINE];
  }

  lemma DumpStep(ptr: Bytes, i: nat)
    requires i < |ptr|
    ensures Escape(ptr[..i + 1]) == Escape(ptr[..i]) + EscapeByte(ptr[i])
  {
    assert ptr[..i + 1] == ptr[..i] + [ptr[i]];
    EscapeAppend(ptr[..i], [ptr[i]]);
    assert Escape([ptr[i]]) == EscapeByte(ptr[i]) + Escape([]);
  }

  lemma {:induction false} NulAt(s: Bytes, i: nat)
    requires i <= |s| && 0 !in s[..i] && (i == |s| || s[i] == 0)
    ensures BeforeNul(s) == s[..i]
  {
    if i > 0 {
      assert s[0] == s[..i][0] && s[1..][..i - 1] == s[..i][1..];
      NulAt(s[1..], i - 1);
    }
  }

  method DumpByte(buf: array<u8>, pos: nat, c: u8) returns (pos': nat)
    requires pos + 4 < buf.Length
    modifies buf
    ensures pos' <= pos + 4 && buf[..pos'] == old(buf[..pos]) + EscapeByte(c)
  {
    if NeedsEscape(c) {
      buf[pos], buf[pos + 1] := BACKSLASH, 120;
      buf[pos + 2], buf[pos + 3] := HexDigit(c / 16), HexDigit(c % 16);
      buf[pos + 4] := 0;
      pos' := pos + 4;
    } else {
      buf[pos] := c;
      pos' := pos + 1;
    }
  }

  // ------------------------------------------------------------------ the reader

  datatype Why = NoClosingQuote | NoOpeningQuote | EmptyKeyword | NonPrintable | BadEscape | TooBig

  /** What becomes of a line; Fatal ends the program. */
  datatype Line = Skipped | Keyword(data: Bytes) | Fatal(why: Why)

  predicate IsSpace(c: u8) { c == 32 || 9 <= c <= 13 }
  predicate IsDigit(c: u8) { 48 <= c <= 57 }
  predicate IsAlpha(c: u8) { 65 <= c <= 90 || 97 <= c <= 122 }
  predicate IsLabel(c: u8) { IsDigit(c) || IsAlpha(c) || c == 95 }
  predicate IsSeparator(c: u8) { IsSpace(c) || c == 61 }
  predicate IsHex(c: u8) { IsDigit(c) || 65 <= c <= 70 || 97 <= c <= 102 }

  function HexValue(c: u8): (r: u8)
    requires IsHex(c)
    ensures r < 16
  {
    if c <= 57 then c - 48 else if c <= 70 then c - 55 else c - 87
  }

  function DropWhile(s: Bytes, p: u8 -> bool): (r: Bytes)
    ensures |r| <= |s|
  {
    if s != [] && p(s[0]) then DropWhile(s[1..], p) else s
  }

  function DropWhileEnd(s: Bytes, p: u8 -> bool): (r: Bytes) {
    if s != [] && p(s[|s| - 1]) then DropWhileEnd(s[..|s| - 1], p) else s
  }

  function Digits(s: Bytes, value: nat): nat {
    if s != [] && IsDigit(s[0]) then Digits(s[1..], 10 * value + (s[0] - 48) as nat) else value
  }

  /** atoi */
  function Atoi(s: Bytes): int {
    var t := DropWhile(s, IsSpace);
    if t != [] && t[0] == 45 then -(Digits(t[1..], 0) as int)
    else if t != [] && t[0] == 43 then Digits(t[1..], 0)
    else Digits(t, 0)
  }

  /** Whether an annotation asks for a higher level; the comparison is unsigned. */
  predicate TooDeep(s: Bytes, dictLevel: nat) {
    Atoi(s) % 0x1_0000_0000 > dictLevel
  }

  function Prepend(data: Bytes, rest: Line): Line {
    if rest.Keyword? then Keyword(data + rest.data) else rest
  }

  /** The text between the quotes, undone. */
  function Unescape(s: Bytes): Line {
    if s == [] then Keyword([])
    else if 1 <= s[0] <= 31 || 128 <= s[0] then Fatal(NonPrintable)
    else if s[0] != BACKSLASH then Prepend([s[0]], Unescape(s[1..]))
    else if |s| > 1 && (s[1] == BACKSLASH || s[1] == QUOTE) then Prepend([s[1]], Unescape(s[2..]))
    else if |s| < 4 || s[1] != 120 || !IsHex(s[2]) || !IsHex(s[3]) then Fatal(BadEscape)
    else Prepend([16 * HexValue(s[2]) + HexValue(s[3])], Unescape(s[4..]))
  }

  function Value(s: Bytes): Line {
    if s == [] then Fatal(EmptyKeyword)
    else
      var r := Unescape(s);
      if r.Keyword? && |r.data| > MAX_DICT_FILE then Fatal(TooBig) else r
  }

  /** From the end of the label and its annotation to the closing quote. */
  function AfterLabel(s: Bytes): Line {
    var t := DropWhile(s, IsSeparator);
    if t == [] || t[0] != QUOTE then Fatal(NoOpeningQuote) else Value(t[1..])
  }

  function ParseLine(line: Bytes, dictLevel: nat): Line {
    var s := DropWhileEnd(DropWhile(BeforeNul(line), IsSpace), IsSpace);
    if s == [] || s[0] == 35 then Skipped
    else if s[|s| - 1] != QUOTE then Fatal(NoClosingQuote)
    else
      var t := DropWhile(s[..|s| - 1], IsLabel);
      if t == [] || t[0] != 64 then AfterLabel(t)
      else if TooDeep(t[1..], dictLevel) then Skipped
      else AfterLabel(DropWhile(t[1..], IsDigit))
  }

  /** A loop that moves the cursor over characters of one kind. */
  method SkipWhile(s: Bytes, p: u8 -> bool) returns (r: Bytes)
    ensures r == DropWhile(s, p)
  {
    var i := 0;
    while i < |s| && p(s[i])
      invariant i <= |s| && DropWhile(s[i..], p) == DropWhile(s, p)
    {
      i := i + 1;
    }
    r := s[i..];
  }

  method SkipWhileEnd(s: Bytes, p: u8 -> bool) returns (r: Bytes)
    ensures r == DropWhileEnd(s, p)
  {
    var i := |s|;
    assert s[..i] == s;
    while i > 0 && p(s[i - 1])
      invariant 0 <= i <= |s| && DropWhileEnd(s[..i], p) == DropWhileEnd(s, p)
    {
      assert s[..i][..i - 1] == s[..i - 1];
      i := i - 1;
    }
    r := s[..i];
  }

  lemma PrependTwice(a: Bytes, b: Bytes, r: Line)
    ensures Prepend(a, Prepend(b, r)) == Prepend(a + b, r)
  {
    if r.Keyword? {
      assert a + (b + r.data) == a + b + r.data;
    }
  }

  /** One round of the copying loop. */
  method CopyOne(s: Bytes) returns (data: Bytes, rest: Bytes, err: Line)
    requires s != []
    ensures if err.Fatal? then Unescape(s) == err
            else |data| == 1 && |rest| < |s| && Unescape(s) == Prepend(data, Unescape(rest))
  {
    data, rest, err := [], s, Skipped;
    if 1 <= s[0] <= 31 || 128 <= s[0] {
      err := Fatal(NonPrintable);
    } else if s[0] == BACKSLASH {
      if |s| > 1 && (s[1] == BACKSLASH || s[1] == QUOTE) {
        data, rest := [s[1]], s[2..];
      } else if |s| < 4 || s[1] != 120 || !IsHex(s[2]) || !IsHex(s[3]) {
        err := Fatal(BadEscape);
      } else {
        data, rest := [16 * HexValue(s[2]) + HexValue(s[3])], s[4..];
      }
    } else {
      data, rest := [s[0]], s[1..];
    }
  }

  method CopyKeyword(s: Bytes) returns (r: Line)
    ensures r == Unescape(s)
  {
    var rest, data := s, [];
    while rest != []
      invariant Unescape(s) == Prepend(data, Unescape(rest))
      decreases |rest|
    {
      var more, rest', err := CopyOne(rest);
      if err.Fatal? {
        return err;
      }
      PrependTwice(data, more, Unescape(rest'));
      rest, data := rest', data + more;
    }
    r := Keyword(data);
  }

  /** One line of a dictionary file, as load_extras_file treats it. */
  method LoadLine(buf: Bytes, dictLevel: nat) returns (r: Line)
    ensures r == ParseLine(buf, dictLevel)
  {
    var lptr := SkipWhile(BeforeNul(buf), IsSpace);
    lptr := SkipWhileEnd(lptr, IsSpace);
    if lptr == [] || lptr[0] == 35 {
      return Skipped;
    }
    if lptr[|lptr| - 1] != QUOTE {
      return Fatal(NoClosingQuote);
    }
    lptr := SkipWhile(lptr[..|lptr| - 1], IsLabel);
    if lptr != [] && lptr[0] == 64 {
      if TooDeep(lptr[1..], dictLevel) {
        return Skipped;
      }
      lptr := SkipWhile(lptr[1..], IsDigit);
    }
    lptr := SkipWhile(lptr, IsSeparator);
    if lptr == [] || lptr[0] != QUOTE {
      return Fatal(NoOpeningQuote);
    }
    lptr := lptr[1..];
    if lptr == [] {
      return Fatal(EmptyKeyword);
    }
    r := CopyKeyword(lptr);
    if r.Keyword? && |r.data| > MAX_DICT_FILE {
      r := Fatal(TooBig);
    }
  }

  // ------------------------------------------------------------------ round trips

  lemma HexPair(c: u8)
    ensures IsHex(HexDigit(c / 16)) && IsHex(HexDigit(c % 16))
    ensures HexValue(HexDigit(c / 16)) == c / 16 && HexValue(HexDigit(c % 16)) == c % 16
    ensures 16 * (c / 16) + c % 16 == c
  {
  }

  lemma UnescapeByte(c: u8, e: Bytes, rest: Bytes)
    requires e == EscapeByte(c)
    ensures Unescape(e + rest) == Prepend([c], Unescape(rest))
  {
    HexPair(c);
    assert (e + rest)[|e|..] == rest;
  }

  /** Undoing the escapes gives the token back, whatever its bytes. */
  lemma {:induction false} EscapeRoundTrip(t: Bytes)
    ensures Unescape(Escape(t)) == Keyword(t)
  {
    if t != [] {
      EscapeRoundTrip(t[1..]);
      UnescapeByte(t[0], EscapeByte(t[0]), Escape(t[1..]));
      assert [t[0]] + t[1..] == t;
    }
  }

  ghost predicate All(s: Bytes, p: u8 -> bool) {
    forall c <- s :: p(c)
  }

  lemma {:induction false} DropAll(s: Bytes, t: Bytes, p: u8 -> bool)
    requires All(s, p) && (t == [] || !p(t[0]))
    ensures DropWhile(s + t, p) == t
  {
    if s == [] {
      assert s + t == t;
    } else {
      assert s[0] in s;
      DropAll(s[1..], t, p);
      assert (s + t)[1..] == s[1..] + t;
    }
  }

  lemma {:induction false} DropAllEnd(s: Bytes, t: Bytes, p: u8 -> bool)
    requires All(t, p) && (s == [] || !p(s[|s| - 1]))
    ensures DropWhileEnd(s + t, p) == s
  {
    if t == [] {
      assert s + t == s;
    } else {
      var n := |t| - 1;
      assert t[n] in t;
      DropAllEnd(s, t[..n], p);
      assert (s + t)[..|s| + n] == s + t[..n];
    }
  }

  lemma {:induction false} DigitsThen(ds: Bytes, t: Bytes, value: nat)
    requires All(ds, IsDigit) && (t == [] || !IsDigit(t[0]))
    ensures Digits(ds + t, value) == Digits(ds, value)
  {
    if ds == [] {
      assert ds + t == t;
    } else {
      assert ds[0] in ds;
      DigitsThen(ds[1..], t, 10 * value + (ds[0] - 48) as nat);
      assert (ds + t)[1..] == ds[1..] + t;
    }
  }

  lemma AtoiReads(ds: Bytes, t: Bytes)
    requires ds != [] && All(ds, IsDigit) && (t == [] || !IsDigit(t[0]))
    ensures Atoi(ds + t) == Digits(ds, 0)
  {
    assert ds[0] in ds && (ds + t)[0] == ds[0];
    DigitsThen(ds, t, 0);
  }

  function Annotation(ds: Bytes): Bytes {
    if ds == [] then [] else [64] + ds
  }

  /** What is left of a line once the blanks around it are gone. */
  function Core(name: Bytes, ds: Bytes, sep: Bytes, body: Bytes): Bytes {
    name + (Annotation(ds) + (sep + ([QUOTE] + body))) + [QUOTE]
  }

  lemma SeparatorSkipped(sep: Bytes, body: Bytes)
    requires All(sep, IsSeparator)
    ensures AfterLabel(sep + ([QUOTE] + body)) == Value(body)
  {
    DropAll(sep, [QUOTE] + body, IsSeparator);
    assert ([QUOTE] + body)[1..] == body;
  }

  lemma CoreParsed(name: Bytes, ds: Bytes, sep: Bytes, body: Bytes, dictLevel: nat)
    requires All(name, IsLabel) && All(ds, IsDigit) && All(sep, IsSeparator)
    ensures var s := Core(name, ds, sep, body);
            var t := DropWhile(s[..|s| - 1], IsLabel);
            s != [] && s[|s| - 1] == QUOTE
            && if ds == [] then (t == [] || t[0] != 64) && AfterLabel(t) == Value(body)
               else t != [] && t[0] == 64
                    && TooDeep(t[1..], dictLevel) == (Digits(ds, 0) % 0x1_0000_0000 > dictLevel)
                    && AfterLabel(DropWhile(t[1..], IsDigit)) == Value(body)
  {
    var s := Core(name, ds, sep, body);
    var value := sep + ([QUOTE] + body);
    assert value[0] == QUOTE || value[0] in sep;
    var t := Annotation(ds) + value;
    assert s[..|s| - 1] == name + t;
    SeparatorSkipped(sep, body);
    DropAll(name, t, IsLabel);
    if ds == [] {
      assert t == value;
    } else {
      AnnotationRead(ds, value, dictLevel);
    }
  }

  lemma AnnotationRead(ds: Bytes, value: Bytes, dictLevel: nat)
    requires ds != [] && All(ds, IsDigit) && value != [] && !IsDigit(value[0])
    ensures var t := Annotation(ds) + value;
            && TooDeep(t[1..], dictLevel) == (Digits(ds, 0) % 0x1_0000_0000 > dictLevel)
            && DropWhile(t[1..], IsDigit) == value
  {
    assert (Annotation(ds) + value)[1..] == ds + value;
    AtoiReads(ds, value);
    DropAll(ds, value, IsDigit);
  }

  /** A line of the documented form: blanks, a label, a level, blanks and equal signs, a
      quoted value, blanks.  It is skipped if its level is too high and gives its value
      otherwise. */
  lemma LabelledLine(w1: Bytes, name: Bytes, ds: Bytes, sep: Bytes, body: Bytes, w2: Bytes, dictLevel: nat)
    requires All(w1, IsSpace) && All(name, IsLabel) && All(ds, IsDigit) && All(sep, IsSeparator) && All(w2, IsSpace)
    requires 0 !in body && (name == [] && ds == [] ==> sep == [])
    ensures ParseLine(w1 + (Core(name, ds, sep, body) + w2), dictLevel) ==
            if ds != [] && Digits(ds, 0) % 0x1_0000_0000 > dictLevel then Skipped else Value(body)
  {
    var s := Core(name, ds, sep, body);
    CoreParsed(name, ds, sep, body, dictLevel);
    CoreStart(name, ds, sep, body);
    CoreHasNoNul(name, ds, sep, body);
    BlanksTrimmed(w1, s, w2);
    TrimmedLine(w1 + (s + w2), s, ds, body, dictLevel);
  }

  lemma CoreHasNoNul(name: Bytes, ds: Bytes, sep: Bytes, body: Bytes)
    requires All(name, IsLabel) && All(ds, IsDigit) && All(sep, IsSeparator) && 0 !in body
    ensures 0 !in Core(name, ds, sep, body)
  {
  }

  /** The line once its blanks are gone. */
  lemma TrimmedLine(line: Bytes, s: Bytes, ds: Bytes, body: Bytes, dictLevel: nat)
    requires DropWhileEnd(DropWhile(BeforeNul(line), IsSpace), IsSpace) == s
    requires s != [] && s[0] != 35 && s[|s| - 1] == QUOTE
    requires var t := DropWhile(s[..|s| - 1], IsLabel);
             if ds == [] then (t == [] || t[0] != 64) && AfterLabel(t) == Value(body)
             else t != [] && t[0] == 64
                  && TooDeep(t[1..], dictLevel) == (Digits(ds, 0) % 0x1_0000_0000 > dictLevel)
                  && AfterLabel(DropWhile(t[1..], IsDigit)) == Value(body)
    ensures ParseLine(line, dictLevel) ==
            if ds != [] && Digits(ds, 0) % 0x1_0000_0000 > dictLevel then Skipped else Value(body)
  {
  }

  lemma BlanksTrimmed(w1: Bytes, core: Bytes, w2: Bytes)
    requires All(w1, IsSpace) && All(w2, IsSpace) && 0 !in core
    requires core != [] && !IsSpace(core[0]) && !IsSpace(core[|core| - 1])
    ensures DropWhileEnd(DropWhile(BeforeNul(w1 + (core + w2)), IsSpace), IsSpace) == core
  {
    var line := w1 + (core + w2);
    assert line[..|line|] == line && 0 !in w1 && 0 !in w2;
    NulAt(line, |line|);
    DropAll(w1, core + w2, IsSpace);
    DropAllEnd(core, w2, IsSpace);
  }

  lemma CoreStart(name: Bytes, ds: Bytes, sep: Bytes, body: Bytes)
    requires All(name, IsLabel) && (name == [] && ds == [] ==> sep == [])
    ensures var s := Core(name, ds, sep, body); s != [] && !IsSpace(s[0]) && s[0] != 35
  {
    var s := Core(name, ds, sep, body);
    if name != [] {
      assert s[0] == name[0] && name[0] in name;
    } else {
      assert s[0] == if ds != [] then 64 else QUOTE;
    }
  }

  lemma BareLine(body: Bytes, none: Bytes, dictLevel: nat)
    requires 0 !in body && none == []
    ensures ParseLine([QUOTE] + body + [QUOTE, NEWLINE], dictLevel) == Value(body)
  {
    LabelledLine(none, none, none, none, body, [NEWLINE], dictLevel);
    assert [QUOTE] + body + [QUOTE, NEWLINE] == none + (Core(none, none, none, body) + [NEWLINE]);
  }

  lemma EscapedValue(token: Bytes)
    requires |token| <= MAX_DICT_FILE
    ensures Value(Escape(token)) == if token == [] then Fatal(EmptyKeyword) else Keyword(token)
  {
    EscapePlain(token);
    EscapeRoundTrip(token);
  }

  /** Reading a dumped token back gives the token, or in text mode the part before its
      first NUL.  The one exception is a text that starts with NUL: its line holds an
      empty keyword, which the loader takes for a fatal error. */
  lemma RoundTrip(ptr: Bytes, isText: bool, dictLevel: nat)
    requires 3 <= |ptr| <= 32
    ensures var token := if isText then BeforeNul(ptr) else ptr;
            ParseLine(DumpLine(token), dictLevel) ==
            if isText && ptr[0] == 0 then Fatal(EmptyKeyword) else Keyword(token)
  {
    var token := if isText then BeforeNul(ptr) else ptr;
    EscapePlain(token);
    EscapedValue(token);
    BareLine(Escape(token), [], dictLevel);
  }

  /** So different tokens are never written alike. */
  lemma DumpInjective(s: Bytes, t: Bytes)
    requires DumpLine(s) == DumpLine(t)
    ensures s == t
  {
    assert DumpLine(s)[1..|DumpLine(s)| - 2] == Escape(s);
    assert DumpLine(t)[1..|DumpLine(t)| - 2] == Escape(t);
    EscapeRoundTrip(s);
    EscapeRoundTrip(t);
  }
}
