/** The directory-listing parser of sync.go: it reads the HTML index page
    that the remote server generates for one directory and turns every
    kept `href="…"` into a file entry with a best-effort byte size. */
module Listing {
  import opened Wrappers
  import opened Text

  /** One remote file as the listing reports it. */
  datatype FileInfo = FileInfo(Name: string, Size: int)

  /** The outcome of the GET of a directory page: a transport failure
      (including a failure to read the body), or a status code and body. */
  datatype HttpGet = GetFailed | GetResponse(status: int, body: string)

  datatype FetchError = Transport | HttpStatus(code: int)

  const HrefOpen: string := "href=\""
  const SizeMarker: string := "class=\"size\""
  const CellOpen: string := "<td class=\"size\">"
  const CellClose: string := "</td>"

  // ---------------------------------------------------------------------
  // Percent-decoding (url.QueryUnescape)
  // ---------------------------------------------------------------------

  predicate IsHex(c: char)
  {
    '0' <= c <= '9' || 'a' <= c <= 'f' || 'A' <= c <= 'F'
  }

  function HexValue(c: char): (v: nat)
    requires IsHex(c)
    ensures v < 16
  {
    if '0' <= c <= '9' then c as int - '0' as int
    else if 'a' <= c <= 'f' then c as int - 'a' as int + 10
    else c as int - 'A' as int + 10
  }

  /** url.QueryUnescape: `%XX` becomes the byte XX, `+` becomes a space,
      every other byte stays; a `%` not followed by two hexadecimal digits
      makes the whole decoding fail. */
  function Unescape(s: string): (r: Option<string>)
    ensures r.Some? ==> |r.value| <= |s|
    ensures '%' !in s && '+' !in s ==> r == Some(s)
    decreases |s|
  {
    if s == [] then Some([])
    else if s[0] == '%' then
      if |s| < 3 || !IsHex(s[1]) || !IsHex(s[2]) then None
      else
        match Unescape(s[3..])
        case None => None
        case Some(t) => Some([(HexValue(s[1]) * 16 + HexValue(s[2])) as char] + t)
    else
      assert s == [s[0]] + s[1..];
      match Unescape(s[1..])
      case None => None
      case Some(t) => Some([if s[0] == '+' then ' ' else s[0]] + t)
  }

  /** Bytes that a query-component encoder leaves as they are. */
  predicate Unreserved(c: char)
  {
    'a' <= c <= 'z' || 'A' <= c <= 'Z' || '0' <= c <= '9' || c == '-' || c == '_' || c == '.' || c == '~'
  }

  predicate IsByteString(s: string)
  {
    forall i :: 0 <= i < |s| ==> s[i] as int < 256
  }

  function HexDigit(d: nat): (c: char)
    requires d < 16
    ensures IsHex(c) && HexValue(c) == d
  {
    if d < 10 then ('0' as int + d) as char else ('A' as int + d - 10) as char
  }

  /** How the encoder writes one byte. */
  function EscapeByte(c: char): string
    requires c as int < 256
  {
    if Unreserved(c) then [c]
    else if c == ' ' then "+"
    else "%" + [HexDigit(c as int / 16), HexDigit(c as int % 16)]
  }

  /** The encoder whose output Unescape inverts (url.QueryEscape): every
      byte other than the unreserved ones is written `%XX`, a space `+`. */
  function Escape(s: string): (r: string)
    requires IsByteString(s)
    decreases |s|
  {
    if s == [] then [] else EscapeByte(s[0]) + Escape(s[1..])
  }

  /** A byte other than `%` decodes to itself, `+` to a space. */
  lemma UnescapePlain(e: string, c: char, rest: string, t: string)
    requires e == [c] + rest && c != '%' && Unescape(rest) == Some(t)
    ensures Unescape(e) == Some([if c == '+' then ' ' else c] + t)
  {
    assert e[0] == c && e[1..] == rest;
  }

  /** `%XX` decodes to the byte XX. */
  lemma UnescapeHex(e: string, hi: char, lo: char, rest: string, t: string)
    requires IsHex(hi) && IsHex(lo)
    requires e == ['%', hi, lo] + rest && Unescape(rest) == Some(t)
    ensures Unescape(e) == Some([(HexValue(hi) * 16 + HexValue(lo)) as char] + t)
  {
    assert e[0] == '%' && e[1] == hi && e[2] == lo && e[3..] == rest;
  }

  lemma EscapeByteHex(c: char)
    requires c as int < 256 && !Unreserved(c) && c != ' '
    ensures EscapeByte(c) == ['%', HexDigit(c as int / 16), HexDigit(c as int % 16)]
  {
  }

  /** The two hexadecimal digits of a byte give the byte back. */
  lemma HexByte(c: char)
    requires c as int < 256
    ensures (HexValue(HexDigit(c as int / 16)) * 16 + HexValue(HexDigit(c as int % 16))) as char == c
  {
    var h, l := c as int / 16, c as int % 16;
    assert HexValue(HexDigit(h)) == h && HexValue(HexDigit(l)) == l;
    assert h * 16 + l == c as int;
  }

  /** Decoding the encoding of one byte gives the byte back. */
  lemma UnescapeByte(c: char, rest: string, t: string)
    requires c as int < 256 && Unescape(rest) == Some(t)
    ensures Unescape(EscapeByte(c) + rest) == Some([c] + t)
  {
    var e := EscapeByte(c) + rest;
    if Unreserved(c) {
      UnescapePlain(e, c, rest, t);
    } else if c == ' ' {
      UnescapePlain(e, '+', rest, t);
    } else {
      EscapeByteHex(c);
      UnescapeHex(e, HexDigit(c as int / 16), HexDigit(c as int % 16), rest, t);
      HexByte(c);
    }
  }

  /** Decoding undoes encoding, for every byte string. */
  lemma {:induction false} UnescapeEscape(s: string)
    requires IsByteString(s)
    ensures Unescape(Escape(s)) == Some(s)
    decreases |s|
  {
    if s != [] {
      var rest := Escape(s[1..]);
      UnescapeEscape(s[1..]);
      assert Escape(s) == EscapeByte(s[0]) + rest;
      UnescapeByte(s[0], rest, s[1..]);
      assert [s[0]] + s[1..] == s;
    }
  }

  // ---------------------------------------------------------------------
  // Links
  // ---------------------------------------------------------------------

  /** The value of the first `href="` on a line, up to the next quote;
      None when the line has no `href="` or no closing quote. */
  function HrefOf(line: string): (r: Option<string>)
    ensures r.Some? <==> Contains(line, HrefOpen) && Contains(line[Index(line, HrefOpen) + |HrefOpen|..], "\"")
    ensures r.Some? ==> '"' !in r.value && OccursAt(line, HrefOpen + r.value + "\"", Index(line, HrefOpen))
  {
    if !Contains(line, "href=") then
      HrefOpenHasHref(line);
      None
    else
      BetweenExcludesClose(line, HrefOpen, '"');
      BetweenOccurs(line, HrefOpen, "\"");
      Between(line, HrefOpen, "\"")
  }

  /** A line with `href="` also contains `href=`. */
  lemma HrefOpenHasHref(line: string)
    ensures Contains(line, HrefOpen) ==> Contains(line, "href=")
  {
    IndexSpec(line, HrefOpen);
    var i := Index(line, HrefOpen);
    if i >= 0 {
      assert line[i..i + 5] == line[i..i + 6][..5];
      ContainsIff(line, "href=");
      assert OccursAt(line, "href=", i);
    }
  }

  /** A link written as `href="h"` yields `h`, when nothing before it on
      the line could start another `href="`. */
  lemma HrefOfTag(pre: string, h: string, post: string)
    requires 'h' !in pre && '"' !in h
    ensures HrefOf(pre + HrefOpen + h + "\"" + post) == Some(h)
  {
    var line := pre + HrefOpen + h + "\"" + post;
    BetweenMarkers(pre, HrefOpen, h, "\"", post);
    IndexSpec(line, "href=");
    assert OccursAt(line, "href=", |pre|) by { assert line[|pre|..|pre| + 5] == "href="; }
  }

  /** Links that name no file of this directory: the parent directory,
      absolute and external links, anchors and query strings. */
  predicate Skipped(href: string)
  {
    href == "../" || HasPrefix(href, "http") || HasPrefix(href, "#") ||
    HasPrefix(href, "/") || HasPrefix(href, "?") || Contains(href, "?")
  }

  /** The entry name: the decoded href, or the raw href when it does not
      decode. */
  function EntryName(href: string): (name: string)
    ensures Unescape(href).Some? ==> name == Unescape(href).value
    ensures Unescape(href).None? ==> name == href
    ensures '%' !in href && '+' !in href ==> name == href
  {
    match Unescape(href)
    case Some(u) => u
    case None => href
  }

  // ---------------------------------------------------------------------
  // Sizes
  // ---------------------------------------------------------------------

  /** The trimmed text of the size cell, or "" when either marker is
      missing. */
  function ExtractSize(line: string): (r: string)
    ensures r == [] || (!IsSpace(r[0]) && !IsSpace(r[|r| - 1]))
    ensures !Contains(line, CellOpen) ==> r == ""
    ensures Contains(line, CellOpen) && !Contains(line[Index(line, CellOpen) + |CellOpen|..], CellClose) ==> r == ""
  {
    match Between(line, CellOpen, CellClose)
    case None => ""
    case Some(text) => TrimSpace(text)
  }

  /** A size cell yields its text without the surrounding white space,
      whatever markup (such as the link cell) comes before it on the line. */
  lemma ExtractSizeOfCell(pre: string, text: string, post: string)
    requires !Contains(pre, CellOpen) && '<' !in text
    ensures ExtractSize(pre + CellOpen + text + CellClose + post) == TrimSpace(text)
  {
    var line := pre + CellOpen + text + CellClose + post;
    assert line == pre + CellOpen + (text + CellClose + post);
    FirstCellAfter(pre, text + CellClose + post);
    assert line[|pre| + |CellOpen|..] == text + CellClose + post;
    IndexAfterPrefix(text, CellClose, post);
    assert line[|pre| + |CellOpen|..|pre| + |CellOpen| + |text|] == text;
    BetweenFound(line, CellOpen, CellClose, |pre|, text);
  }

  /** When `pre` holds no size cell, the first one in `pre + CellOpen + q`
      is the one right after `pre`: an earlier occurrence would either lie
      inside `pre` or put the '<' that opens the cell at an inner position
      of CellOpen, which holds no other '<'. */
  lemma FirstCellAfter(pre: string, q: string)
    requires !Contains(pre, CellOpen)
    ensures Index(pre + CellOpen + q, CellOpen) == |pre|
  {
    var line := pre + CellOpen + q;
    IndexSpec(line, CellOpen);
    IndexSpec(pre, CellOpen);
    assert OccursAt(line, CellOpen, |pre|) by { assert line[|pre|..|pre| + |CellOpen|] == CellOpen; }
    forall i | 0 <= i < |pre|
      ensures !OccursAt(line, CellOpen, i)
    {
      if i + |CellOpen| <= |pre| {
        assert line[i..i + |CellOpen|] == pre[i..i + |CellOpen|];
        assert !OccursAt(pre, CellOpen, i);
      } else if i + |CellOpen| <= |line| {
        var j := |pre| - i;
        assert line[i..i + |CellOpen|][j] == line[|pre|] == '<';
        assert CellOpen[j] != '<';
      }
    }
  }

  /** A decimal number `digits / 10^scale`. */
  datatype Decimal = Decimal(digits: int, scale: nat)

  function Pow(b: nat, e: nat): (p: nat)
    ensures b > 0 ==> p > 0
  {
    if e == 0 then 1 else b * Pow(b, e - 1)
  }

  /** Length of the run of decimal digits that starts `s`. */
  function DigitRun(s: string): (n: nat)
    ensures n <= |s| && AllDigits(s[..n])
    ensures n == |s| || !IsDigit(s[n])
    decreases |s|
  {
    if s == [] || !IsDigit(s[0]) then 0
    else
      var n := DigitRun(s[1..]);
      assert s[..n + 1] == [s[0]] + s[1..][..n];
      n + 1
  }

  lemma DigitRunAll(s: string)
    requires AllDigits(s)
    ensures DigitRun(s) == |s|
    decreases |s|
  {
    if s != [] { DigitRunAll(s[1..]); }
  }

  /** The coefficient `%f` reads from the front of a field: an optional
      sign, digits, an optional point and more digits; 0 when there is no
      digit at all (the scan fails and leaves the value at 0). */
  function ScanCoefficient(s: string): (d: Decimal)
  {
    var neg := s != [] && s[0] == '-';
    var body := if s != [] && (s[0] == '-' || s[0] == '+') then s[1..] else s;
    var u := ScanUnsigned(body);
    Decimal(if neg then -u.digits else u.digits, u.scale)
  }

  /** The digits after a point that follows the whole part, or none when
      no point follows it. */
  function FractionDigits(body: string, whole: nat): (fd: string)
    requires whole <= |body|
    ensures AllDigits(fd)
  {
    if whole < |body| && body[whole] == '.' then
      var rest := body[whole + 1..];
      rest[..DigitRun(rest)]
    else ""
  }

  /** An unsigned coefficient: the whole digits and the fraction digits
      together, scaled by the number of fraction digits. */
  function ScanUnsigned(body: string): (d: Decimal)
    ensures d.digits >= 0
  {
    var whole := DigitRun(body);
    var fd := FractionDigits(body, whole);
    if whole + |fd| == 0 then Decimal(0, 0)
    else
      AllDigitsConcat(body[..whole], fd);
      Decimal(DecimalValue(body[..whole] + fd), |fd|)
  }

  /** The byte multiplier of a unit; an unknown unit leaves it at 1. */
  function Multiplier(unit: string): (m: nat)
    ensures m == 1 || m == 1024 || m == 1024 * 1024 || m == 1024 * 1024 * 1024 || m == 1024 * 1024 * 1024 * 1024
  {
    if unit == "B" then 1
    else if unit == "KiB" then 1024
    else if unit == "MiB" then 1024 * 1024
    else if unit == "GiB" then 1024 * 1024 * 1024
    else if unit == "TiB" then 1024 * 1024 * 1024 * 1024
    else 1
  }

  /** The units, in the order of their powers of 1024. */
  const Units: seq<string> := ["B", "KiB", "MiB", "GiB", "TiB"]

  /** Division that truncates toward zero, like a float-to-int conversion. */
  function TruncDiv(a: int, b: nat): int
    requires b > 0
  {
    if a >= 0 then a / b else -((-a) / b)
  }

  /** parseSizeString: "V UNIT" in bytes, truncated toward zero; 0 for an
      empty or "-" size and for text that is not exactly two fields. */
  function ParseSize(text: string): (r: int)
    ensures text == "" || text == "-" || |Fields(text)| != 2 ==> r == 0
  {
    if text == "" || text == "-" then 0
    else
      var parts := Fields(text);
      if |parts| != 2 then 0
      else
        var c := ScanCoefficient(parts[0]);
        TruncDiv(c.digits * Multiplier(parts[1]), Pow(10, c.scale))
  }

  lemma ScanWhole(ds: string)
    requires ds != [] && AllDigits(ds)
    ensures ScanCoefficient(ds) == Decimal(DecimalValue(ds), 0)
  {
    DigitRunAll(ds);
    assert ds[..|ds|] == ds;
    assert ds + "" == ds;
  }

  /** A coefficient with a fractional part, "d…d.f…f", is read as the
      digits of both parts scaled by the number of fraction digits. */
  lemma ScanFraction(ds: string, fs: string)
    requires ds != [] && AllDigits(ds) && fs != [] && AllDigits(fs)
    ensures AllDigits(ds + fs)
    ensures ScanCoefficient(ds + "." + fs) == Decimal(DecimalValue(ds + fs), |fs|)
  {
    AllDigitsConcat(ds, fs);
    var s := ds + "." + fs;
    assert s[0] == ds[0] && IsDigit(ds[0]);
    assert s == ds + ("." + fs);
    DigitRunStops(ds, "." + fs);
    assert s[|ds|] == '.';
    assert s[|ds| + 1..] == fs;
    DigitRunAll(fs);
    assert fs[..|fs|] == fs;
    assert FractionDigits(s, |ds|) == fs;
    assert s[..|ds|] == ds;
    assert ScanUnsigned(s) == Decimal(DecimalValue(ds + fs), |fs|);
  }

  /** The digit run stops at the first byte that is not a digit. */
  lemma {:induction false} DigitRunStops(ds: string, rest: string)
    requires AllDigits(ds) && rest != [] && !IsDigit(rest[0])
    ensures DigitRun(ds + rest) == |ds|
    decreases |ds|
  {
    if ds != [] {
      var t := ds + rest;
      assert t[0] == ds[0] && IsDigit(t[0]);
      assert t[1..] == ds[1..] + rest;
      DigitRunStops(ds[1..], rest);
    } else {
      assert ds + rest == rest;
    }
  }

  /** "d…d.f…f U" with a known unit U: the decimal value times 1024^k,
      truncated toward zero (for instance "10.3 KiB" is 10547 bytes). */
  lemma ParseSizeFraction(ds: string, fs: string, k: nat)
    requires ds != [] && AllDigits(ds) && fs != [] && AllDigits(fs)
    requires k < |Units|
    ensures AllDigits(ds + fs)
    ensures ParseSize(ds + "." + fs + " " + Units[k]) == DecimalValue(ds + fs) * Pow(1024, k) / Pow(10, |fs|)
  {
    ScanFraction(ds, fs);
    var c := ds + "." + fs;
    assert NoSpace(c) by {
      forall i | 0 <= i < |c| ensures !IsSpace(c[i]) {
        if i < |ds| { assert c[i] == ds[i]; }
        else if i > |ds| { assert c[i] == fs[i - |ds| - 1]; }
      }
    }
    FieldsOfTwo(c, " ", Units[k]);
    ParseSizeOfFields(c + " " + Units[k], c, Units[k]);
    MultiplierOfUnit(k);
    TruncDivNat(DecimalValue(ds + fs), Pow(1024, k), Pow(10, |fs|));
  }

  /** On a product of naturals, truncating division is plain division. */
  lemma TruncDivNat(a: nat, b: nat, d: nat)
    requires d > 0
    ensures a * b >= 0 && TruncDiv(a * b, d) == a * b / d
  {
  }

  /** Two fields: the scanned coefficient times the unit's multiplier,
      truncated toward zero. */
  lemma ParseSizeOfFields(text: string, a: string, unit: string)
    requires Fields(text) == [a, unit] && |text| >= 2
    ensures ParseSize(text) == TruncDiv(ScanCoefficient(a).digits * Multiplier(unit), Pow(10, ScanCoefficient(a).scale))
  {
    assert text != "" && text != "-";
  }

  lemma MultiplierOfUnit(k: nat)
    requires k < |Units|
    ensures Multiplier(Units[k]) == Pow(1024, k)
  {
  }

  /** Two fields, the first a whole number: that number times the
      unit's multiplier. */
  lemma ParseSizeOfNumber(text: string, ds: string, unit: string)
    requires |text| >= 2 && Fields(text) == [ds, unit]
    requires ds != [] && AllDigits(ds)
    ensures ParseSize(text) == DecimalValue(ds) * Multiplier(unit)
  {
    ScanWhole(ds);
    assert Pow(10, 0) == 1;
    TruncDivOne(DecimalValue(ds) * Multiplier(unit));
    assert text != "" && text != "-";
  }

  lemma TruncDivOne(a: int)
    ensures TruncDiv(a, 1) == a
  {
  }

  lemma MultiplierUnknown(unit: string)
    requires unit !in Units
    ensures Multiplier(unit) == 1
  {
    assert forall k :: 0 <= k < |Units| ==> unit != Units[k];
  }

  /** A whole number of any of the five units is that many times the
      unit's power of 1024. */
  lemma ParseSizeWhole(ds: string, k: nat)
    requires ds != [] && AllDigits(ds)
    requires k < |Units|
    ensures ParseSize(ds + " " + Units[k]) == DecimalValue(ds) * Pow(1024, k)
  {
    assert NoSpace(ds);
    FieldsOfTwo(ds, " ", Units[k]);
    ParseSizeOfNumber(ds + " " + Units[k], ds, Units[k]);
    MultiplierOfUnit(k);
  }

  /** An unknown unit does not zero the size: the multiplier stays 1. */
  lemma ParseSizeUnknownUnit(ds: string, unit: string)
    requires ds != [] && AllDigits(ds)
    requires unit != [] && NoSpace(unit) && unit !in Units
    ensures ParseSize(ds + " " + unit) == DecimalValue(ds)
  {
    assert NoSpace(ds);
    FieldsOfTwo(ds, " ", unit);
    ParseSizeOfNumber(ds + " " + unit, ds, unit);
    MultiplierUnknown(unit);
  }

  // ---------------------------------------------------------------------
  // Entries
  // ---------------------------------------------------------------------

  /** The first of the lines j, …, i + 2 that carries the size class. */
  function FirstMarked(lines: seq<string>, i: nat, j: nat): (r: Option<nat>)
    requires i <= j
    ensures r.Some? ==> j <= r.value < |lines| && r.value < i + 3 && Contains(lines[r.value], SizeMarker)
    decreases i + 3 - j
  {
    if j >= |lines| || j >= i + 3 then None
    else if Contains(lines[j], SizeMarker) then Some(j)
    else FirstMarked(lines, i, j + 1)
  }

  /** The size for the link on line `i`: from the first marked line of
      its window, or 0 when none is marked. */
  function WindowSize(lines: seq<string>, i: nat): int
  {
    match FirstMarked(lines, i, i)
    case Some(m) => ParseSize(ExtractSize(lines[m]))
    case None => 0
  }

  lemma {:induction false} FirstMarkedIs(lines: seq<string>, i: nat, j: nat, m: nat)
    requires i <= j <= m < |lines| && m < i + 3
    requires Contains(lines[m], SizeMarker)
    requires forall k :: j <= k < m ==> !Contains(lines[k], SizeMarker)
    ensures FirstMarked(lines, i, j) == Some(m)
    decreases m - j
  {
    if j < m { FirstMarkedIs(lines, i, j + 1, m); }
  }

  lemma {:induction false} FirstMarkedNone(lines: seq<string>, i: nat, j: nat)
    requires i <= j
    requires forall k :: j <= k < |lines| && k < i + 3 ==> !Contains(lines[k], SizeMarker)
    ensures FirstMarked(lines, i, j) == None
    decreases i + 3 - j
  {
    if j < |lines| && j < i + 3 { FirstMarkedNone(lines, i, j + 1); }
  }

  /** The size comes from the first marked line of the window. */
  lemma WindowSizeFirst(lines: seq<string>, i: nat, m: nat)
    requires i <= m < |lines| && m < i + 3
    requires Contains(lines[m], SizeMarker)
    requires forall k :: i <= k < m ==> !Contains(lines[k], SizeMarker)
    ensures WindowSize(lines, i) == ParseSize(ExtractSize(lines[m]))
  {
    FirstMarkedIs(lines, i, i, m);
  }

  /** No marked line in the window: the size is 0. */
  lemma WindowSizeNone(lines: seq<string>, i: nat)
    requires forall k :: i <= k < |lines| && k < i + 3 ==> !Contains(lines[k], SizeMarker)
    ensures WindowSize(lines, i) == 0
  {
    FirstMarkedNone(lines, i, i);
  }

  /** The entry line `i` contributes, if any. */
  function EntryAt(lines: seq<string>, i: nat): (r: Option<FileInfo>)
    requires i < |lines|
    ensures r.Some? <==> HrefOf(lines[i]).Some? && !Skipped(HrefOf(lines[i]).value)
    ensures r.Some? ==> r.value.Name == EntryName(HrefOf(lines[i]).value)
  {
    match HrefOf(lines[i])
    case None => None
    case Some(href) =>
      if Skipped(href) then None
      else Some(FileInfo(EntryName(href), WindowSize(lines, i)))
  }

  lemma EntryAtKept(lines: seq<string>, i: nat, href: string)
    requires i < |lines| && HrefOf(lines[i]) == Some(href) && !Skipped(href)
    ensures EntryAt(lines, i) == Some(FileInfo(EntryName(href), WindowSize(lines, i)))
  {
  }

  /** The candidate entry of every line, in line order. */
  function Candidates(lines: seq<string>): (c: seq<Option<FileInfo>>)
    ensures |c| == |lines|
    ensures forall i :: 0 <= i < |lines| ==> c[i] == EntryAt(lines, i)
  {
    seq(|lines|, i requires 0 <= i < |lines| => EntryAt(lines, i))
  }

  /** The values of the present candidates, in order. */
  function Present<T>(opts: seq<Option<T>>): seq<T>
  {
    if opts == [] then []
    else
      Present(opts[..|opts| - 1]) +
      match opts[|opts| - 1]
      case Some(v) => [v]
      case None => []
  }

  /** The positions of the present candidates, in increasing order. */
  function PresentAt<T>(opts: seq<Option<T>>): seq<nat>
  {
    if opts == [] then []
    else PresentAt(opts[..|opts| - 1]) + (if opts[|opts| - 1].Some? then [|opts| - 1] else [])
  }

  lemma PresentSnoc<T>(opts: seq<Option<T>>, o: Option<T>)
    ensures Present(opts + [o]) == Present(opts) + match o case Some(v) => [v] case None => []
  {
    assert (opts + [o])[..|opts|] == opts;
  }

  lemma PresentPrefixStep<T>(opts: seq<Option<T>>, i: nat)
    requires i < |opts|
    ensures Present(opts[..i + 1]) == Present(opts[..i]) + match opts[i] case Some(v) => [v] case None => []
  {
    assert opts[..i + 1] == opts[..i] + [opts[i]];
    PresentSnoc(opts[..i], opts[i]);
  }

  /** The k-th present value is the candidate at the k-th present
      position. */
  lemma {:induction false} PresentAtSound<T>(opts: seq<Option<T>>)
    ensures |Present(opts)| == |PresentAt(opts)|
    ensures forall k :: 0 <= k < |PresentAt(opts)| ==>
      PresentAt(opts)[k] < |opts| && opts[PresentAt(opts)[k]] == Some(Present(opts)[k])
  {
    if opts != [] {
      var init := opts[..|opts| - 1];
      PresentAtSound(init);
      assert forall i :: 0 <= i < |init| ==> opts[i] == init[i];
    }
  }

  /** The present positions are increasing and include every present
      candidate. */
  lemma {:induction false} PresentAtOrdered<T>(opts: seq<Option<T>>)
    ensures forall k :: 0 <= k < |PresentAt(opts)| ==> PresentAt(opts)[k] < |opts|
    ensures forall k, l :: 0 <= k < l < |PresentAt(opts)| ==> PresentAt(opts)[k] < PresentAt(opts)[l]
    ensures forall i :: 0 <= i < |opts| && opts[i].Some? ==> i in PresentAt(opts)
  {
    if opts != [] {
      var init := opts[..|opts| - 1];
      PresentAtOrdered(init);
      assert forall i :: 0 <= i < |init| ==> opts[i] == init[i];
    }
  }

  /** The parsed listing of a page body: one entry per line that has a
      kept link, in line order. */
  function Listing(body: string): seq<FileInfo>
  {
    Present(Candidates(Split(body, '\n')))
  }

  /** Every entry comes from a line with a kept link, is named by that
      link's decoded (or raw) href and sized from that line's window; the
      entries follow the lines in order and no kept link is missed. */
  lemma ListingFromLines(body: string)
    ensures var lines := Split(body, '\n');
      var at := PresentAt(Candidates(lines));
      && |Listing(body)| == |at|
      && (forall k :: 0 <= k < |at| ==>
            && at[k] < |lines|
            && HrefOf(lines[at[k]]).Some? && !Skipped(HrefOf(lines[at[k]]).value)
            && Listing(body)[k] == FileInfo(EntryName(HrefOf(lines[at[k]]).value), WindowSize(lines, at[k])))
      && (forall k, l :: 0 <= k < l < |at| ==> at[k] < at[l])
      && (forall i :: 0 <= i < |lines| && HrefOf(lines[i]).Some? && !Skipped(HrefOf(lines[i]).value) ==> i in at)
  {
    var lines := Split(body, '\n');
    var c := Candidates(lines);
    PresentAtSound(c);
    PresentAtOrdered(c);
    var at := PresentAt(c);
    forall k | 0 <= k < |at|
      ensures HrefOf(lines[at[k]]).Some? && !Skipped(HrefOf(lines[at[k]]).value) &&
              Listing(body)[k] == FileInfo(EntryName(HrefOf(lines[at[k]]).value), WindowSize(lines, at[k]))
    {
      assert EntryAt(lines, at[k]) == Some(Listing(body)[k]);
    }
    forall i | 0 <= i < |lines| && HrefOf(lines[i]).Some? && !Skipped(HrefOf(lines[i]).value)
      ensures i in at
    {
      assert c[i].Some?;
    }
  }

  /** The size search of getDirectoryListing: the first line of the
      window i, i+1, i+2 with the size class gives the size, and no such
      line gives 0. */
  method SizeNear(lines: seq<string>, i: nat) returns (size: int)
    requires i < |lines|
    ensures size == WindowSize(lines, i)
  {
    size := 0;
    var j := i;
    while j < |lines| && j < i + 3
      invariant i <= j <= i + 3
      invariant FirstMarked(lines, i, i) == FirstMarked(lines, i, j)
    {
      if Contains(lines[j], SizeMarker) {
        size := ParseSize(ExtractSize(lines[j]));
        break;
      }
      j := j + 1;
    }
  }

  /** One pass of the line loop of getDirectoryListing: the entry for
      a kept link on line `i`, sized from its window. */
  method EntryOfLine(lines: seq<string>, i: nat) returns (entry: Option<FileInfo>)
    requires i < |lines|
    ensures entry == EntryAt(lines, i)
  {
    var link := HrefOf(lines[i]);
    if link.Some? && !Skipped(link.value) {
      var href := link.value;
      var name := match Unescape(href) case Some(u) => u case None => href;
      var size := SizeNear(lines, i);
      EntryAtKept(lines, i, href);
      entry := Some(FileInfo(name, size));
    } else {
      entry := None;
    }
  }

  /** getDirectoryListing: fetch the page and parse it line by line. */
  method GetDirectoryListing(resp: HttpGet) returns (r: Result<seq<FileInfo>, FetchError>)
    ensures resp.GetFailed? ==> r == Err(Transport)
    ensures resp.GetResponse? && resp.status != 200 ==> r == Err(HttpStatus(resp.status))
    ensures resp.GetResponse? && resp.status == 200 ==> r == Ok(Listing(resp.body))
  {
    if resp.GetFailed? {
      return Err(Transport);
    }
    if resp.status != 200 {
      return Err(HttpStatus(resp.status));
    }
    var files: seq<FileInfo> := [];
    var lines := Split(resp.body, '\n');
    ghost var cands := Candidates(lines);
    var i := 0;
    while i < |lines|
      invariant 0 <= i <= |lines|
      invariant files == Present(cands[..i])
    {
      PresentPrefixStep(cands, i);
      var entry := EntryOfLine(lines, i);
      if entry.Some? {
        files := files + [entry.value];
      }
      i := i + 1;
    }
    assert cands[..|lines|] == cands;
    r := Ok(files);
  }
}
