/** What the edge key strings of internal/routing/customize.go look like, apart from the functions that write and read
  them: which string stands for which key, and which strings are skipped.
  */
module KeyStrings {
  import opened Wrappers
  import opened Customization
  import opened MetricCodec

  // ---------------------------------------------------------------- the decimal base

  /** Numerals are decimal: one digit for a number below ten, a last digit appended for any other, a leading minus sign
    for a negative one.
    */
  lemma DecimalNumeral(n: nat, d: nat)
    requires d < 10
    ensures FormatInt(d) == ["0123456789"[d]]
    ensures n > 0 ==> FormatInt(10 * n + d) == FormatInt(n) + ["0123456789"[d]]
    ensures n > 0 ==> FormatInt(0 - n) == "-" + FormatInt(n)
  {
    TenDigits(d);
    if n > 0 {
      assert (10 * n + d) / 10 == n && (10 * n + d) % 10 == d;
    }
  }

  lemma TenDigits(d: nat)
    requires d < 10
    ensures DigitChar(d) == "0123456789"[d] && DigitValue("0123456789"[d]) == d
  {
    assert "0123456789"[d] == '0' + d as char;
  }

  predicate AllDigits(s: string) { forall i :: 0 <= i < |s| ==> '0' <= s[i] <= '9' }

  /** A further digit multiplies by ten and adds its own value. */
  lemma DecimalValue(s: string, d: nat)
    requires AllDigits(s) && d < 10
    ensures Value("") == 0 && Value(s + ["0123456789"[d]]) == 10 * Value(s) + d
  {
    TenDigits(d);
    var t := s + ["0123456789"[d]];
    assert forall i :: 0 <= i < |t| ==> IsDigit(t[i]);
    assert t[..|t| - 1] == s;
  }

  // ---------------------------------------------------------------- numerals

  /** Blanks are the white space of Unicode's table of ranges, a newline excepted. */
  lemma BlanksAreWhiteSpace(c: char)
    ensures var u := c as int;
            IsBlank(c) <==>
              && c != '\n'
              && (0x9 <= u <= 0xd || u == 0x20 || u == 0x85 || u == 0xa0 || u == 0x1680 || 0x2000 <= u <= 0x200a
                  || 0x2028 <= u <= 0x2029 || u == 0x202f || u == 0x205f || u == 0x3000)
  {
  }

  /** The string is blanks, an optional sign and decimal digits for v, and v fits 64 bits. */
  ghost predicate Spells(num: string, blanks: string, sign: string, ds: string, v: int)
  {
    && num == blanks + sign + ds
    && (forall i :: 0 <= i < |blanks| ==> IsBlank(blanks[i]))
    && (sign == "" || sign == "+" || sign == "-")
    && ds != "" && AllDigits(ds)
    && v == (if sign == "-" then 0 - Value(ds) else Value(ds))
    && -0x8000_0000_0000_0000 <= v <= 0x7fff_ffff_ffff_ffff
  }

  ghost predicate Numeral(num: string, v: int)
  {
    exists blanks: string, sign: string, ds: string :: Spells(num, blanks, sign, ds, v)
  }

  /** Reading stops here. */
  predicate NoDigitNext(rest: string) { rest == "" || !('0' <= rest[0] <= '9') }

  lemma {:induction false} BlanksInFront(s: string) returns (blanks: string)
    ensures s == blanks + SkipBlanks(s)
    ensures forall i :: 0 <= i < |blanks| ==> IsBlank(blanks[i])
  {
    if s != "" && IsBlank(s[0]) {
      blanks := BlanksInFront(s[1..]);
      blanks := [s[0]] + blanks;
    } else {
      blanks := "";
    }
  }

  lemma {:induction false} SkipExactly(blanks: string, t: string)
    requires forall i :: 0 <= i < |blanks| ==> IsBlank(blanks[i])
    requires t != "" && !IsBlank(t[0])
    ensures SkipBlanks(blanks + t) == t
  {
    if blanks == "" {
      assert blanks + t == t;
    } else {
      assert (blanks + t)[1..] == blanks[1..] + t;
      SkipExactly(blanks[1..], t);
    }
  }

  lemma RunOfDigits(negative: bool, u: string, v: int, rest: string) returns (ds: string)
    requires ScanRun(negative, u) == Some((v, rest))
    ensures u == ds + rest && ds != "" && AllDigits(ds) && NoDigitNext(rest)
    ensures v == (if negative then 0 - Value(ds) else Value(ds)) && Int64(v)
  {
    ds := u[..DigitRun(u)];
  }

  lemma ScannedIsNumeral(s: string, v: int, rest: string) returns (num: string)
    requires ScanInt(s) == Some((v, rest))
    ensures s == num + rest && Numeral(num, v) && NoDigitNext(rest)
  {
    hide ScanRun, SkipBlanks, IsBlank, AllDigits, NoDigitNext;
    var blanks := BlanksInFront(s);
    var t := SkipBlanks(s);
    var signed := t != [] && t[0] in {'+', '-'};
    var sign := if signed then [t[0]] else "";
    var ds := RunOfDigits(signed && t[0] == '-', if signed then t[1..] else t, v, rest);
    assert t == sign + ds + rest;
    num := blanks + sign + ds;
    assert s == num + rest;
    assert sign == "-" <==> signed && t[0] == '-';
    assert Spells(num, blanks, sign, ds, v);
  }

  lemma RunScanned(negative: bool, ds: string, v: int, rest: string)
    requires ds != "" && AllDigits(ds) && NoDigitNext(rest) && Int64(v)
    requires v == (if negative then 0 - Value(ds) else Value(ds))
    ensures ScanRun(negative, ds + rest) == Some((v, rest))
  {
    DigitRunExact(ds, rest);
    assert (ds + rest)[..|ds|] == ds && (ds + rest)[|ds|..] == rest;
  }

  lemma NumeralScanned(num: string, blanks: string, sign: string, ds: string, v: int, rest: string)
    requires Spells(num, blanks, sign, ds, v) && NoDigitNext(rest)
    ensures ScanInt(num + rest) == Some((v, rest))
  {
    hide ScanRun, SkipBlanks;
    var t := sign + ds + rest;
    assert num + rest == blanks + t;
    SkipExactly(blanks, t);
    RunScanned(sign == "-", ds, v, rest);
    if sign == "" {
      assert t == ds + rest && t[0] == ds[0];
    } else {
      assert t[0] == sign[0] && t[1..] == ds + rest;
    }
  }

  /** Scanning yields v and leaves rest exactly when a numeral for v stands in front of rest and is not cut short. */
  lemma ScanIff(s: string, v: int, rest: string)
    ensures ScanInt(s) == Some((v, rest)) <==>
              NoDigitNext(rest) && exists num: string :: s == num + rest && Numeral(num, v)
  {
    hide ScanInt, Numeral;
    if ScanInt(s) == Some((v, rest)) {
      var num := ScannedIsNumeral(s, v, rest);
      assert s == num + rest && Numeral(num, v);
    }
    if num: string :| NoDigitNext(rest) && s == num + rest && Numeral(num, v) {
      NumeralScans(num, v, rest);
    }
  }

  lemma NumeralScans(num: string, v: int, rest: string)
    requires Numeral(num, v) && NoDigitNext(rest)
    ensures ScanInt(num + rest) == Some((v, rest))
  {
    var blanks, sign, ds :| Spells(num, blanks, sign, ds, v);
    NumeralScanned(num, blanks, sign, ds, v, rest);
  }

  // ---------------------------------------------------------------- keys

  /** The string is a numeral for k.from, a colon directly behind it, a numeral for k.to, and anything that does not
    continue that numeral.
    */
  ghost predicate Writes(s: string, from: string, to: string, rest: string, k: EdgeKey)
  {
    s == from + ":" + to + rest && Numeral(from, k.from) && Numeral(to, k.to) && NoDigitNext(rest)
  }

  /** Exactly which strings are read as which key. */
  lemma EkParseIff(s: string, k: EdgeKey)
    ensures EkParse(s) == Some(k) <==> exists from: string, to: string, rest: string :: Writes(s, from, to, rest, k)
  {
    hide ScanInt, Numeral;
    if EkParse(s) == Some(k) {
      var (f, behind) := ScanInt(s).value;
      var from := ScannedIsNumeral(s, f, behind);
      var (t, rest) := ScanInt(behind[1..]).value;
      var to := ScannedIsNumeral(behind[1..], t, rest);
      assert behind == ":" + behind[1..];
      assert Writes(s, from, to, rest, k);
    }
    if from: string, to: string, rest: string :| Writes(s, from, to, rest, k) {
      var behind := ":" + to + rest;
      NumeralScans(from, k.from, behind);
      assert s == from + behind && behind[1..] == to + rest;
      NumeralScans(to, k.to, rest);
    }
  }

  /** Exactly which strings are skipped. */
  lemma SkippedIff(s: string)
    ensures EkParse(s) == None <==>
              forall k: EdgeKey, from: string, to: string, rest: string :: !Writes(s, from, to, rest, k)
  {
    hide EkParse, Writes;
    if EkParse(s).Some? {
      EkParseIff(s, EkParse(s).value);
    }
    forall k: EdgeKey, from: string, to: string, rest: string | Writes(s, from, to, rest, k)
      ensures EkParse(s) == Some(k)
    {
      EkParseIff(s, k);
    }
  }

  lemma SignedDigits(sign: string, ds: string, v: int)
    requires sign == "" || sign == "-"
    requires ds != "" && AllDigits(ds) && v == (if sign == "-" then 0 - Value(ds) else Value(ds)) && Int64(v)
    ensures Numeral(sign + ds, v)
  {
    assert Spells(sign + ds, "", sign, ds, v);
  }

  /** The digits of two 64-bit numbers, each with an optional minus sign, around a colon are read as their key. */
  lemma DecimalPairIsRead(a: string, from: string, b: string, to: string, k: EdgeKey)
    requires (a == "" || a == "-") && (b == "" || b == "-")
    requires from != "" && AllDigits(from) && k.from == (if a == "-" then 0 - Value(from) else Value(from))
    requires to != "" && AllDigits(to) && k.to == (if b == "-" then 0 - Value(to) else Value(to))
    requires -0x8000_0000_0000_0000 <= k.from <= 0x7fff_ffff_ffff_ffff
    requires -0x8000_0000_0000_0000 <= k.to <= 0x7fff_ffff_ffff_ffff
    ensures EkParse(a + from + ":" + b + to) == Some(k)
  {
    hide EkParse, Numeral, AllDigits;
    SignedDigits(a, from, k.from);
    SignedDigits(b, to, k.to);
    KeyIsRead(a + from, b + to, k);
    assert a + from + ":" + b + to == (a + from) + ":" + (b + to);
  }

  lemma KeyIsRead(from: string, to: string, k: EdgeKey)
    requires Numeral(from, k.from) && Numeral(to, k.to)
    ensures EkParse(from + ":" + to) == Some(k)
  {
    hide EkParse, Numeral;
    assert from + ":" + to == from + ":" + to + "";
    assert Writes(from + ":" + to, from, to, "", k);
    EkParseIff(from + ":" + to, k);
  }

  /** A key is written as its from end, a colon and its to end: scanning yields the one and, behind the colon, the other
    with nothing left.
    */
  lemma KeyIsWritten(k: EdgeKey)
    requires -0x8000_0000_0000_0000 <= k.from <= 0x7fff_ffff_ffff_ffff
    requires -0x8000_0000_0000_0000 <= k.to <= 0x7fff_ffff_ffff_ffff
    ensures EkStr(k) == FormatInt(k.from) + ":" + FormatInt(k.to)
    ensures ScanInt(EkStr(k)) == Some((k.from, ":" + FormatInt(k.to)))
    ensures ScanInt(FormatInt(k.to)) == Some((k.to, ""))
  {
    hide ScanInt;
    var rest := ":" + FormatInt(k.to);
    assert EkStr(k) == FormatInt(k.from) + rest;
    ScanFormatted(k.from, rest);
    assert FormatInt(k.to) == FormatInt(k.to) + "";
    ScanFormatted(k.to, "");
  }
}
