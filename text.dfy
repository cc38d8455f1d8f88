/** The behaviour of the few Go `strings` functions the mirror-sync code
    relies on. Go strings are byte strings: a `char` here stands for one
    byte, and a `string` for a Go string. */
module Text {
  import opened Wrappers

  /** `pat` occurs in `s` starting at offset `i`. */
  predicate OccursAt(s: string, pat: string, i: int)
  {
    0 <= i && i + |pat| <= |s| && s[i..i + |pat|] == pat
  }

  lemma OccursAtTail(s: string, pat: string, i: int)
    requires |s| > 0 && i >= 1
    ensures OccursAt(s, pat, i) <==> OccursAt(s[1..], pat, i - 1)
  {
    if i + |pat| <= |s| {
      assert s[1..][i - 1..i - 1 + |pat|] == s[i..i + |pat|];
    }
  }

  /** strings.Index: the offset of the first occurrence of `pat` in `s`,
      or -1 when there is none (IndexSpec). */
  function Index(s: string, pat: string): (r: int)
    ensures -1 <= r <= |s|
    ensures r >= 0 ==> r + |pat| <= |s|
    decreases |s|
  {
    if |s| < |pat| then -1
    else if s[..|pat|] == pat then 0
    else
      var k := Index(s[1..], pat);
      if k == -1 then -1 else k + 1
  }

  /** Index finds an occurrence, and no occurrence comes before it; -1
      means `pat` does not occur at all. */
  lemma {:induction false} IndexSpec(s: string, pat: string)
    ensures Index(s, pat) >= 0 ==> OccursAt(s, pat, Index(s, pat))
    ensures forall i :: 0 <= i && (Index(s, pat) == -1 || i < Index(s, pat)) ==> !OccursAt(s, pat, i)
    decreases |s|
  {
    if |s| >= |pat| && s[..|pat|] != pat {
      IndexSpec(s[1..], pat);
      forall i | 1 <= i
        ensures OccursAt(s, pat, i) <==> OccursAt(s[1..], pat, i - 1)
      {
        OccursAtTail(s, pat, i);
      }
      assert !OccursAt(s, pat, 0);
    }
  }

  /** strings.Contains. */
  predicate Contains(s: string, pat: string)
  {
    Index(s, pat) >= 0
  }

  lemma ContainsIff(s: string, pat: string)
    ensures Contains(s, pat) <==> exists i :: OccursAt(s, pat, i)
  {
    IndexSpec(s, pat);
  }

  /** When the first character of `pat` does not occur in `p`, the first
      occurrence of `pat` in `p + pat + q` is the one right after `p`. */
  lemma {:induction false} IndexAfterPrefix(p: string, pat: string, q: string)
    requires |pat| > 0 && pat[0] !in p
    ensures Index(p + pat + q, pat) == |p|
  {
    var s := p + pat + q;
    IndexSpec(s, pat);
    assert OccursAt(s, pat, |p|) by { assert s[|p|..|p| + |pat|] == pat; }
    forall i | 0 <= i < |p|
      ensures !OccursAt(s, pat, i)
    {
      assert s[i] == p[i];
    }
  }

  /** Before the first occurrence of a one-character pattern, that
      character does not occur; with no occurrence, nowhere. */
  lemma IndexOfChar(s: string, c: char)
    ensures Index(s, [c]) >= 0 ==> c !in s[..Index(s, [c])]
    ensures Index(s, [c]) == -1 ==> c !in s
  {
    var e := Index(s, [c]);
    IndexSpec(s, [c]);
    var upto := if e >= 0 then e else |s|;
    forall k | 0 <= k < upto ensures s[k] != c {
      assert s[k..k + 1] == [s[k]];
      assert !OccursAt(s, [c], k);
    }
  }

  /** The text between the first `open` and the first `close` after it,
      if both occur. */
  function Between(s: string, open: string, close: string): (r: Option<string>)
    ensures !Contains(s, open) ==> r == None
  {
    var start := Index(s, open);
    if start == -1 then None
    else
      var from := start + |open|;
      var end := Index(s[from..], close);
      if end == -1 then None
      else Some(s[from..from + end])
  }

  lemma BetweenFound(s: string, open: string, close: string, start: nat, mid: string)
    requires Index(s, open) == start
    requires start + |open| + |mid| <= |s|
    requires Index(s[start + |open|..], close) == |mid|
    requires s[start + |open|..start + |open| + |mid|] == mid
    ensures Between(s, open, close) == Some(mid)
  {
  }

  /** In `pre + open + mid + close + post`, when neither `pre` holds the
      first character of `open` nor `mid` that of `close`, the text
      between the markers is `mid`. */
  lemma BetweenMarkers(pre: string, open: string, mid: string, close: string, post: string)
    requires |open| > 0 && open[0] !in pre
    requires |close| > 0 && close[0] !in mid
    ensures Between(pre + open + mid + close + post, open, close) == Some(mid)
  {
    var s := pre + open + mid + close + post;
    assert s == pre + open + (mid + close + post);
    IndexAfterPrefix(pre, open, mid + close + post);
    assert s[|pre| + |open|..] == mid + close + post;
    IndexAfterPrefix(mid, close, post);
    assert s[|pre| + |open|..|pre| + |open| + |mid|] == mid;
    BetweenFound(s, open, close, |pre|, mid);
  }

  /** Between finds text exactly when `open` occurs and `close` occurs
      after its first occurrence; the text then sits between the two
      markers at that first occurrence. */
  lemma BetweenOccurs(s: string, open: string, close: string)
    ensures Between(s, open, close).Some? <==> Contains(s, open) && Contains(s[Index(s, open) + |open|..], close)
    ensures Between(s, open, close).Some? ==> OccursAt(s, open + Between(s, open, close).value + close, Index(s, open))
  {
    var r := Between(s, open, close);
    if r.Some? {
      BetweenSomeAt(s, open, close, r.value);
    }
  }

  lemma BetweenSomeAt(s: string, open: string, close: string, mid: string)
    requires Between(s, open, close) == Some(mid)
    ensures OccursAt(s, open + mid + close, Index(s, open))
  {
    var start, end := BetweenSome(s, open, close, mid);
    var t := s[start + |open|..];
    IndexOccurs(s, open);
    IndexOccurs(t, close);
    OccursAround(s, open, close, start, end, mid);
  }

  /** What Between finds: the offsets of both markers and the text. */
  lemma BetweenSome(s: string, open: string, close: string, mid: string) returns (start: nat, end: nat)
    requires Between(s, open, close) == Some(mid)
    ensures start == Index(s, open) && start + |open| <= |s|
    ensures end == Index(s[start + |open|..], close)
    ensures mid == s[start + |open|..start + |open| + end]
  {
    start := Index(s, open);
    end := Index(s[start + |open|..], close);
  }

  lemma IndexOccurs(s: string, pat: string)
    ensures Index(s, pat) >= 0 ==> OccursAt(s, pat, Index(s, pat))
  {
    IndexSpec(s, pat);
  }

  /** `open` at `start` and `close` at offset `end` after it enclose the
      text between them. */
  lemma OccursAround(s: string, open: string, close: string, start: nat, end: nat, mid: string)
    requires OccursAt(s, open, start)
    requires OccursAt(s[start + |open|..], close, end)
    requires mid == s[start + |open|..start + |open| + end]
    ensures OccursAt(s, open + mid + close, start)
  {
    var from := start + |open|;
    var stop := from + end + |close|;
    assert s[from..][end..end + |close|] == s[from + end..stop];
    SliceSplit(s, start, from, stop);
    SliceSplit(s, from, from + end, stop);
  }

  lemma SliceSplit(s: string, a: nat, b: nat, c: nat)
    requires a <= b <= c <= |s|
    ensures s[a..c] == s[a..b] + s[b..c]
  {
  }

  /** A one-character closing marker never occurs in the text before it. */
  lemma BetweenExcludesClose(s: string, open: string, c: char)
    ensures Between(s, open, [c]).Some? ==> c !in Between(s, open, [c]).value
  {
    var start := Index(s, open);
    if start != -1 {
      var from := start + |open|;
      var end := Index(s[from..], [c]);
      if end != -1 {
        IndexOfChar(s[from..], c);
        assert s[from..from + end] == s[from..][..end];
      }
    }
  }

  /** strings.HasPrefix. */
  predicate HasPrefix(s: string, prefix: string)
  {
    |prefix| <= |s| && s[..|prefix|] == prefix
  }

  /** strings.HasSuffix. */
  predicate HasSuffix(s: string, suffix: string)
  {
    |suffix| <= |s| && s[|s| - |suffix|..] == suffix
  }

  /** strings.Split(s, sep) for a one-character separator: the pieces
      between the separators, at least one. */
  function Split(s: string, sep: char): (r: seq<string>)
    ensures |r| >= 1
    ensures forall k :: 0 <= k < |r| ==> sep !in r[k]
    decreases |s|
  {
    if s == [] then [""]
    else
      var rest := Split(s[1..], sep);
      if s[0] == sep then [""] + rest
      else [[s[0]] + rest[0]] + rest[1..]
  }

  /** strings.Join(parts, sep): the inverse of Split. */
  function Join(parts: seq<string>, sep: char): string
    requires |parts| >= 1
    decreases |parts|
  {
    if |parts| == 1 then parts[0] else parts[0] + [sep] + Join(parts[1..], sep)
  }

  lemma {:induction false} JoinSplit(s: string, sep: char)
    ensures Join(Split(s, sep), sep) == s
    decreases |s|
  {
    if s != [] {
      var rest := Split(s[1..], sep);
      JoinSplit(s[1..], sep);
      if s[0] != sep {
        if |rest| == 1 {
          assert Split(s, sep) == [[s[0]] + rest[0]];
        } else {
          assert Split(s, sep)[1..] == rest[1..];
          assert Join(rest, sep) == rest[0] + [sep] + Join(rest[1..], sep);
        }
      }
    }
  }

  lemma {:induction false} SplitPrefix(p: string, t: string, sep: char)
    requires sep !in p
    ensures Split(p + t, sep) == [p + Split(t, sep)[0]] + Split(t, sep)[1..]
    decreases |p|
  {
    if p != [] {
      assert (p + t)[1..] == p[1..] + t;
      SplitPrefix(p[1..], t, sep);
      assert [p[0]] + (p[1..] + Split(t, sep)[0]) == p + Split(t, sep)[0];
    } else {
      assert p + t == t;
      assert p + Split(t, sep)[0] == Split(t, sep)[0];
      assert Split(t, sep) == [Split(t, sep)[0]] + Split(t, sep)[1..];
    }
  }

  lemma {:induction false} SplitJoin(parts: seq<string>, sep: char)
    requires |parts| >= 1
    requires forall k :: 0 <= k < |parts| ==> sep !in parts[k]
    ensures Split(Join(parts, sep), sep) == parts
    decreases |parts|
  {
    if |parts| == 1 {
      SplitPrefix(parts[0], "", sep);
      assert parts[0] + "" == parts[0];
    } else {
      var j := Join(parts[1..], sep);
      SplitJoin(parts[1..], sep);
      SplitPrefix(parts[0], [sep] + j, sep);
      assert parts[0] + [sep] + j == parts[0] + ([sep] + j);
      assert ([sep] + j)[1..] == j;
      assert Split([sep] + j, sep) == [""] + Split(j, sep);
      assert parts[0] + "" == parts[0];
      assert parts == [parts[0]] + parts[1..];
    }
  }

  /** unicode.IsSpace restricted to single bytes: the ASCII white space
      characters. */
  predicate IsSpace(c: char)
  {
    c == ' ' || c == '\t' || c == '\n' || c == '\U{000B}' || c == '\U{000C}' || c == '\r'
  }

  /** A string without the separator is one piece. */
  lemma SplitNone(x: string, sep: char)
    requires sep !in x
    ensures Split(x, sep) == [x]
  {
    assert Join([x], sep) == x;
    SplitJoin([x], sep);
  }

  /** Two pieces joined by one separator split back into the two. */
  lemma SplitTwo(x: string, y: string, sep: char)
    requires sep !in x && sep !in y
    ensures Split(x + [sep] + y, sep) == [x, y]
  {
    assert Join([x, y], sep) == x + [sep] + y;
    SplitJoin([x, y], sep);
  }

  predicate AllSpace(s: string)
  {
    forall i :: 0 <= i < |s| ==> IsSpace(s[i])
  }

  predicate NoSpace(s: string)
  {
    forall i :: 0 <= i < |s| ==> !IsSpace(s[i])
  }

  /** `s` with its leading white space removed. */
  function TrimLeft(s: string): (r: string)
    ensures |r| <= |s| && r == s[|s| - |r|..]
    ensures AllSpace(s[..|s| - |r|])
    ensures r == [] || !IsSpace(r[0])
    decreases |s|
  {
    if s != [] && IsSpace(s[0]) then
      var r := TrimLeft(s[1..]);
      assert s[..|s| - |r|] == [s[0]] + s[1..][..|s| - 1 - |r|];
      r
    else s
  }

  /** `s` with its trailing white space removed. */
  function TrimRight(s: string): (r: string)
    ensures |r| <= |s| && r == s[..|r|]
    ensures AllSpace(s[|r|..])
    ensures r == [] || !IsSpace(r[|r| - 1])
    decreases |s|
  {
    if s != [] && IsSpace(s[|s| - 1]) then
      var r := TrimRight(s[..|s| - 1]);
      assert s[|r|..] == s[..|s| - 1][|r|..] + [s[|s| - 1]];
      r
    else s
  }

  /** strings.TrimSpace: the middle of `s` once white space is removed from
      both ends. */
  function TrimSpace(s: string): (r: string)
    ensures |r| <= |s|
    ensures r == [] || (!IsSpace(r[0]) && !IsSpace(r[|r| - 1]))
  {
    TrimRight(TrimLeft(s))
  }

  lemma {:induction false} TrimLeftPadded(pad: string, t: string)
    requires AllSpace(pad)
    requires t == [] || !IsSpace(t[0])
    ensures TrimLeft(pad + t) == t
    decreases |pad|
  {
    if pad != [] {
      assert (pad + t)[1..] == pad[1..] + t;
      TrimLeftPadded(pad[1..], t);
    } else {
      assert pad + t == t;
    }
  }

  lemma {:induction false} TrimRightPadded(t: string, pad: string)
    requires AllSpace(pad)
    requires t == [] || !IsSpace(t[|t| - 1])
    ensures TrimRight(t + pad) == t
    decreases |pad|
  {
    if pad != [] {
      assert (t + pad)[..|t + pad| - 1] == t + pad[..|pad| - 1];
      TrimRightPadded(t, pad[..|pad| - 1]);
    } else {
      assert t + pad == t;
    }
  }

  /** TrimSpace removes exactly the white space padding around a text
      that neither starts nor ends with white space. */
  lemma TrimSpacePadded(pre: string, t: string, post: string)
    requires AllSpace(pre) && AllSpace(post)
    requires t == [] || (!IsSpace(t[0]) && !IsSpace(t[|t| - 1]))
    ensures TrimSpace(pre + t + post) == t
  {
    if t == [] {
      assert pre + t + post == pre + post;
      TrimLeftPadded(pre + post, "");
      assert pre + post + "" == pre + post;
      TrimRightPadded("", "");
    } else {
      assert pre + t + post == pre + (t + post);
      TrimLeftPadded(pre, t + post);
      TrimRightPadded(t, post);
    }
  }

  /** Length of the run of non-space characters that starts `s`. */
  function WordLength(s: string): (n: nat)
    ensures n <= |s|
    ensures NoSpace(s[..n])
    ensures n == |s| || IsSpace(s[n])
    decreases |s|
  {
    if s == [] || IsSpace(s[0]) then 0
    else
      var n := WordLength(s[1..]);
      assert s[..n + 1] == [s[0]] + s[1..][..n];
      n + 1
  }

  /** strings.Fields: the maximal runs of non-space characters of `s`. */
  function Fields(s: string): (r: seq<string>)
    ensures forall k :: 0 <= k < |r| ==> r[k] != [] && NoSpace(r[k])
    decreases |s|
  {
    var t := TrimLeft(s);
    if t == [] then []
    else
      var n := WordLength(t);
      [t[..n]] + Fields(t[n..])
  }

  lemma WordLengthOf(w: string, rest: string)
    requires NoSpace(w)
    requires rest == [] || IsSpace(rest[0])
    ensures WordLength(w + rest) == |w|
    decreases |w|
  {
    if w != [] {
      assert (w + rest)[1..] == w[1..] + rest;
      WordLengthOf(w[1..], rest);
    } else {
      assert w + rest == rest;
    }
  }

  /** A word followed by white space or nothing is the first field. */
  lemma FieldsCons(w: string, rest: string)
    requires w != [] && NoSpace(w)
    requires rest == [] || IsSpace(rest[0])
    ensures Fields(w + rest) == [w] + Fields(rest)
  {
    var s := w + rest;
    TrimLeftPadded("", s);
    assert "" + s == s;
    WordLengthOf(w, rest);
    assert s[..|w|] == w;
    assert s[|w|..] == rest;
  }

  /** Leading white space does not change the fields. */
  lemma FieldsSkipSpace(gap: string, t: string)
    requires AllSpace(gap)
    requires t == [] || !IsSpace(t[0])
    ensures Fields(gap + t) == Fields(t)
  {
    TrimLeftPadded(gap, t);
    TrimLeftPadded("", t);
    assert "" + t == t;
  }

  lemma FieldsEmpty()
    ensures Fields("") == []
  {
    assert TrimLeft("") == "";
  }

  /** A single word is its only field. */
  lemma FieldsWord(w: string)
    requires w != [] && NoSpace(w)
    ensures Fields(w) == [w]
  {
    FieldsCons(w, "");
    assert w + "" == w;
    FieldsEmpty();
  }

  lemma FieldsAfterGap(gap: string, b: string)
    requires b != [] && NoSpace(b)
    requires AllSpace(gap)
    ensures Fields(gap + b) == [b]
  {
    FieldsSkipSpace(gap, b);
    FieldsWord(b);
  }

  /** Two words separated by white space are exactly two fields. */
  lemma FieldsOfTwo(a: string, gap: string, b: string)
    requires a != [] && NoSpace(a) && b != [] && NoSpace(b)
    requires gap != [] && AllSpace(gap)
    ensures Fields(a + gap + b) == [a, b]
  {
    var rest := gap + b;
    assert a + gap + b == a + rest;
    assert IsSpace(rest[0]);
    FieldsCons(a, rest);
    FieldsAfterGap(gap, b);
  }

  predicate IsDigit(c: char)
  {
    '0' <= c <= '9'
  }

  predicate AllDigits(s: string)
  {
    forall i :: 0 <= i < |s| ==> IsDigit(s[i])
  }

  lemma AllDigitsConcat(a: string, b: string)
    requires AllDigits(a) && AllDigits(b)
    ensures AllDigits(a + b)
  {
    forall i | 0 <= i < |a + b| ensures IsDigit((a + b)[i]) {
      if i >= |a| { assert (a + b)[i] == b[i - |a|]; }
    }
  }

  function DigitChar(d: nat): (c: char)
    requires d < 10
    ensures IsDigit(c) && c as int - '0' as int == d
  {
    ('0' as int + d) as char
  }

  /** The value of a string of decimal digits (0 for the empty string). */
  function DecimalValue(s: string): nat
    requires AllDigits(s)
    decreases |s|
  {
    if s == [] then 0
    else DecimalValue(s[..|s| - 1]) * 10 + (s[|s| - 1] as int - '0' as int)
  }

  /** The decimal text of a natural number, as `%d` prints it. */
  function NatToDecimal(n: nat): (r: string)
    ensures r != [] && AllDigits(r)
    decreases n
  {
    if n < 10 then [DigitChar(n)] else NatToDecimal(n / 10) + [DigitChar(n % 10)]
  }

  /** `%d` for any integer. */
  function IntToDecimal(n: int): (r: string)
    ensures r != [] && NoSpace(r)
  {
    if n < 0 then "-" + NatToDecimal(-n) else NatToDecimal(n)
  }

  lemma {:induction false} DecimalRoundTrip(n: nat)
    ensures DecimalValue(NatToDecimal(n)) == n
    decreases n
  {
    if n >= 10 {
      var r := NatToDecimal(n);
      assert r[..|r| - 1] == NatToDecimal(n / 10);
      DecimalRoundTrip(n / 10);
    }
  }

  /** `%02d` for a number below 100: at least two digits, zero-padded. */
  function Pad2(n: nat): (r: string)
    ensures |r| >= 2 && AllDigits(r)
  {
    if n < 10 then "0" + NatToDecimal(n) else NatToDecimal(n)
  }

  lemma DecimalLeadingZero(s: string)
    requires AllDigits(s)
    ensures AllDigits("0" + s) && DecimalValue("0" + s) == DecimalValue(s)
    decreases |s|
  {
    assert AllDigits("0" + s) by {
      forall i | 0 <= i < |"0" + s| ensures IsDigit(("0" + s)[i]) {
        if i > 0 { assert ("0" + s)[i] == s[i - 1]; }
      }
    }
    if s != [] {
      assert ("0" + s)[..|"0" + s| - 1] == "0" + s[..|s| - 1];
      DecimalLeadingZero(s[..|s| - 1]);
    }
  }

  lemma Pad2RoundTrip(n: nat)
    ensures DecimalValue(Pad2(n)) == n
  {
    DecimalRoundTrip(n);
    if n < 10 { DecimalLeadingZero(NatToDecimal(n)); }
  }
}
