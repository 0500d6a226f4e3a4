/** The few string functions of Go's standard library the extractor relies on:
    strings.TrimSpace, strings.Fields, strings.Split, strconv.Itoa and strconv.Atoi. */
module Strings {
  import opened Wrappers
  import Seqs

  /** White space for TrimSpace and Fields, restricted to ASCII:
      tab, line feed, vertical tab, form feed, carriage return and space. */
  predicate IsSpace(c: char) {
    c == ' ' || '\t' <= c <= '\r'
  }

  predicate NotSpace(c: char) {
    !IsSpace(c)
  }

  predicate AllSpace(s: string) {
    forall i :: 0 <= i < |s| ==> IsSpace(s[i])
  }

  predicate NoSpace(s: string) {
    forall i :: 0 <= i < |s| ==> !IsSpace(s[i])
  }

  // ---------------------------------------------------------------------------
  // TrimSpace

  /** The number of white-space characters at the start of s. */
  function LeadingSpace(s: string): (n: nat)
    ensures n <= |s|
    ensures forall i :: 0 <= i < n ==> IsSpace(s[i])
    ensures n < |s| ==> !IsSpace(s[n])
  {
    if s != [] && IsSpace(s[0]) then 1 + LeadingSpace(s[1..]) else 0
  }

  /** The position where the white space at the end of s begins. */
  function TrailingSpaceStart(s: string): (n: nat)
    ensures n <= |s|
    ensures forall i :: n <= i < |s| ==> IsSpace(s[i])
    ensures 0 < n ==> !IsSpace(s[n - 1])
  {
    if s != [] && IsSpace(s[|s| - 1]) then TrailingSpaceStart(s[..|s| - 1]) else |s|
  }

  /** strings.TrimSpace: s with all leading and trailing white space removed. */
  function TrimSpace(s: string): (r: string)
    ensures |r| <= |s|
  {
    var i := LeadingSpace(s);
    if i == |s| then []
    else
      var j := TrailingSpaceStart(s);
      assert i < j;
      s[i..j]
  }

  /** The trimmed string is a piece of s with only white space around it in s;
      it is empty exactly when s is all white space, and otherwise starts and
      ends with a non-space character. */
  lemma TrimSpaceShape(s: string)
    ensures exists i ::
      && 0 <= i <= |s| - |TrimSpace(s)|
      && TrimSpace(s) == s[i..i + |TrimSpace(s)|]
      && AllSpace(s[..i]) && AllSpace(s[i + |TrimSpace(s)|..])
    ensures TrimSpace(s) == [] <==> AllSpace(s)
    ensures TrimSpace(s) != [] ==> !IsSpace(TrimSpace(s)[0]) && !IsSpace(TrimSpace(s)[|TrimSpace(s)| - 1])
  {
    TrimSpaceSlice(s);
    TrimSpaceBlank(s);
    TrimSpaceEnds(s);
  }

  lemma TrimSpaceSlice(s: string)
    ensures exists i ::
      && 0 <= i <= |s| - |TrimSpace(s)|
      && TrimSpace(s) == s[i..i + |TrimSpace(s)|]
      && AllSpace(s[..i]) && AllSpace(s[i + |TrimSpace(s)|..])
  {
    var i := LeadingSpace(s);
    if i == |s| {
      assert TrimSpace(s) == [];
      assert AllSpace(s[..i]) && AllSpace(s[i..]);
    } else {
      var j := TrailingSpaceStart(s);
      assert TrimSpace(s) == s[i..j];
      assert AllSpace(s[..i]) && AllSpace(s[j..]);
    }
  }

  lemma TrimSpaceBlank(s: string)
    ensures TrimSpace(s) == [] <==> AllSpace(s)
  {
    var i := LeadingSpace(s);
    if i < |s| {
      assert !IsSpace(s[i]);
    }
  }

  lemma TrimSpaceEnds(s: string)
    ensures TrimSpace(s) != [] ==> !IsSpace(TrimSpace(s)[0]) && !IsSpace(TrimSpace(s)[|TrimSpace(s)| - 1])
  {
    var i := LeadingSpace(s);
    if i < |s| {
      var j := TrailingSpaceStart(s);
      assert TrimSpace(s) == s[i..j];
    }
  }

  lemma {:induction false} LeadingSpaceUnique(s: string, i: nat)
    requires i <= |s| && AllSpace(s[..i])
    requires i < |s| ==> !IsSpace(s[i])
    ensures LeadingSpace(s) == i
  {
    if i > 0 {
      assert s[1..][..i - 1] == s[1..i];
      assert IsSpace(s[..i][0]);
      LeadingSpaceUnique(s[1..], i - 1);
    }
  }

  lemma {:induction false} TrailingSpaceStartUnique(s: string, j: nat)
    requires j <= |s| && AllSpace(s[j..])
    requires 0 < j ==> !IsSpace(s[j - 1])
    ensures TrailingSpaceStart(s) == j
    decreases |s| - j
  {
    if j < |s| {
      var s' := s[..|s| - 1];
      assert s'[j..] == s[j..|s| - 1];
      assert IsSpace(s[j..][|s| - 1 - j]);
      TrailingSpaceStartUnique(s', j);
    }
  }

  /** TrimSpace removes exactly the white space around the first and last
      non-space characters: any such decomposition of s is the one it finds. */
  lemma {:induction false} TrimSpaceUnique(s: string, i: nat, j: nat)
    requires i <= j <= |s|
    requires AllSpace(s[..i]) && AllSpace(s[j..])
    requires i < j ==> !IsSpace(s[i]) && !IsSpace(s[j - 1])
    ensures TrimSpace(s) == s[i..j]
  {
    if i == j {
      forall k | 0 <= k < |s| ensures IsSpace(s[k]) {
        if k < i { assert s[..i][k] == s[k]; } else { assert s[j..][k - j] == s[k]; }
      }
    } else {
      LeadingSpaceUnique(s, i);
      TrailingSpaceStartUnique(s, j);
    }
  }

  /** Trimming twice is the same as trimming once. */
  lemma TrimSpaceIdempotent(s: string)
    ensures TrimSpace(TrimSpace(s)) == TrimSpace(s)
  {
    var r := TrimSpace(s);
    TrimSpaceShape(s);
    TrimSpaceUnique(r, 0, |r|);
  }

  // ---------------------------------------------------------------------------
  // Fields

  /** The fields of s when the field read so far is cur: white space ends the
      current field (when it is not empty), any other character extends it. */
  function FieldsAfter(s: string, cur: string): seq<string> {
    if s == [] then (if cur == [] then [] else [cur])
    else if IsSpace(s[0]) then (if cur == [] then [] else [cur]) + FieldsAfter(s[1..], [])
    else FieldsAfter(s[1..], cur + [s[0]])
  }

  /** strings.Fields: the maximal runs of non-space characters of s, in order. */
  function Fields(s: string): (fs: seq<string>)
    ensures forall k :: 0 <= k < |fs| ==> fs[k] != [] && NoSpace(fs[k])
  {
    FieldsAfterWords(s, []);
    FieldsAfter(s, [])
  }

  lemma {:induction false} FieldsAfterWords(s: string, cur: string)
    requires NoSpace(cur)
    ensures forall k :: 0 <= k < |FieldsAfter(s, cur)| ==>
      FieldsAfter(s, cur)[k] != [] && NoSpace(FieldsAfter(s, cur)[k])
  {
    if s != [] {
      if IsSpace(s[0]) {
        FieldsAfterWords(s[1..], []);
        var head := if cur == [] then [] else [cur];
        var rest := FieldsAfter(s[1..], []);
        assert forall k :: 0 <= k < |rest| ==> (head + rest)[|head| + k] == rest[k];
      } else {
        var cur' := cur + [s[0]];
        assert forall k :: 0 <= k < |cur| ==> cur'[k] == cur[k];
        FieldsAfterWords(s[1..], cur');
      }
    }
  }

  /** The characters of s that are not white space. */
  function RemoveSpace(s: string): string {
    Seqs.Filter(s, NotSpace)
  }

  /** The fields hold exactly the non-space characters of s, in order. */
  lemma {:induction false} FieldsAfterFlatten(s: string, cur: string)
    ensures Seqs.Flatten(FieldsAfter(s, cur)) == cur + RemoveSpace(s)
  {
    if s == [] {
      assert cur + [] == cur;
    } else {
      assert s == [s[0]] + s[1..];
      Seqs.FilterAppend([s[0]], s[1..], NotSpace);
      if IsSpace(s[0]) {
        var head := if cur == [] then [] else [cur];
        FieldsAfterFlatten(s[1..], []);
        Seqs.FlattenAppend(head, FieldsAfter(s[1..], []));
        assert Seqs.Flatten(head) == cur;
        assert [] + RemoveSpace(s[1..]) == RemoveSpace(s[1..]);
      } else {
        FieldsAfterFlatten(s[1..], cur + [s[0]]);
      }
    }
  }

  /** Joined together, the fields are s without its white space. */
  lemma FieldsFlatten(s: string)
    ensures Seqs.Flatten(Fields(s)) == RemoveSpace(s)
  {
    FieldsAfterFlatten(s, []);
    assert [] + RemoveSpace(s) == RemoveSpace(s);
  }

  /** Reading a word without white space only extends the current field. */
  lemma {:induction false} FieldsAfterWord(w: string, rest: string, cur: string)
    requires NoSpace(w)
    ensures FieldsAfter(w + rest, cur) == FieldsAfter(rest, cur + w)
  {
    if w == [] {
      assert w + rest == rest;
      assert cur + w == cur;
    } else {
      assert (w + rest)[0] == w[0];
      assert (w + rest)[1..] == w[1..] + rest;
      FieldsAfterWord(w[1..], rest, cur + [w[0]]);
      assert cur + [w[0]] + w[1..] == cur + w;
    }
  }

  /** A leading word followed by one white-space character contributes exactly
      itself. */
  lemma FieldsCons(w: string, c: char, tail: string)
    requires w != [] && NoSpace(w) && IsSpace(c)
    ensures Fields(w + [c] + tail) == [w] + Fields(tail)
  {
    var rest := [c] + tail;
    assert w + [c] + tail == w + rest;
    FieldsAfterWord(w, rest, []);
    assert [] + w == w;
    assert rest[1..] == tail;
  }

  /** White space outside a field separates nothing: any run of it, of any
      length and of any of the white-space characters, is skipped. */
  lemma {:induction false} FieldsAfterSpace(ws: string, t: string)
    requires AllSpace(ws)
    ensures FieldsAfter(ws + t, []) == FieldsAfter(t, [])
  {
    if ws != [] {
      assert (ws + t)[0] == ws[0];
      assert (ws + t)[1..] == ws[1..] + t;
      FieldsAfterSpace(ws[1..], t);
      assert IsSpace(ws[0]);
      assert FieldsAfter(ws + t, []) == [] + FieldsAfter(ws[1..] + t, []);
    } else {
      assert ws + t == t;
    }
  }

  /** Leading white space does not change the fields. */
  lemma FieldsSkipSpace(ws: string, t: string)
    requires AllSpace(ws)
    ensures Fields(ws + t) == Fields(t)
  {
    FieldsAfterSpace(ws, t);
  }

  /** The empty string and an all-white-space string have no fields. */
  lemma FieldsOfSpace(ws: string)
    requires AllSpace(ws)
    ensures Fields(ws) == []
  {
    FieldsAfterSpace(ws, []);
    assert ws + [] == ws;
  }

  /** A single word is its own only field. */
  lemma FieldsOfWord(w: string)
    requires w != [] && NoSpace(w)
    ensures Fields(w) == [w]
  {
    FieldsAfterWord(w, [], []);
    assert w + [] == w;
    assert [] + w == w;
  }

  /** The metadata of a directory-listing line: the text after the anchor,
      trimmed, splits into date, time and size; the white space around and
      between the words only separates them. */
  lemma FieldsOfListingMeta(ws: string, ws': string)
    requires AllSpace(ws) && AllSpace(ws')
    ensures Fields(TrimSpace(ws + "2025-08-25 20:08  3.3G" + ws')) == ["2025-08-25", "20:08", "3.3G"]
  {
    TrimAroundWord(ws, "2025-08-25 20:08  3.3G", ws');
    FieldsOfListingDate();
  }

  /** Trimming removes exactly the white space around a string that starts
      and ends with a non-space character. */
  lemma TrimAroundWord(ws: string, core: string, ws': string)
    requires AllSpace(ws) && AllSpace(ws')
    requires core != [] && !IsSpace(core[0]) && !IsSpace(core[|core| - 1])
    ensures TrimSpace(ws + core + ws') == core
  {
    var s := ws + core + ws';
    var i, j := |ws|, |ws| + |core|;
    assert s[..i] == ws && s[j..] == ws' && s[i..j] == core;
    assert s[i] == core[0] && s[j - 1] == core[|core| - 1];
    TrimSpaceUnique(s, i, j);
  }

  lemma FieldsOfListingDate()
    ensures Fields("2025-08-25 20:08  3.3G") == ["2025-08-25", "20:08", "3.3G"]
  {
    FieldsOfListingTime();
    assert "2025-08-25 20:08  3.3G" == "2025-08-25" + [' '] + "20:08  3.3G";
    FieldsCons("2025-08-25", ' ', "20:08  3.3G");
  }

  lemma FieldsOfListingTime()
    ensures Fields("20:08  3.3G") == ["20:08", "3.3G"]
  {
    FieldsOfWord("3.3G");
    assert "20:08  3.3G" == "20:08" + [' '] + (" " + "3.3G");
    FieldsSkipSpace(" ", "3.3G");
    FieldsCons("20:08", ' ', " " + "3.3G");
  }

  /** Fields undoes joining non-empty, space-free words with single spaces. */
  lemma {:induction false} FieldsOfJoin(fs: seq<string>)
    requires forall k :: 0 <= k < |fs| ==> fs[k] != [] && NoSpace(fs[k])
    ensures Fields(Join(fs, ' ')) == fs
  {
    if |fs| == 1 {
      FieldsOfWord(fs[0]);
    } else if |fs| > 1 {
      FieldsCons(fs[0], ' ', Join(fs[1..], ' '));
      FieldsOfJoin(fs[1..]);
    }
  }

  // ---------------------------------------------------------------------------
  // Split and Join on a single separator character

  /** strings.Split with a one-character separator: the pieces between separators;
      always at least one piece, and the empty string gives [""]. */
  function Split(s: string, sep: char): (parts: seq<string>)
    ensures |parts| >= 1
    ensures forall k :: 0 <= k < |parts| ==> sep !in parts[k]
  {
    if s == [] then [""]
    else
      var rest := Split(s[1..], sep);
      if s[0] == sep then [""] + rest else [[s[0]] + rest[0]] + rest[1..]
  }

  /** The pieces of an all-white-space string are all white space. */
  lemma {:induction false} SplitAllSpace(s: string, sep: char)
    requires AllSpace(s)
    ensures forall j :: 0 <= j < |Split(s, sep)| ==> AllSpace(Split(s, sep)[j])
  {
    if s != [] {
      SplitAllSpace(s[1..], sep);
    }
  }

  /** strings.Join with a one-character separator. */
  function Join(parts: seq<string>, sep: char): string {
    if |parts| == 0 then ""
    else if |parts| == 1 then parts[0]
    else parts[0] + [sep] + Join(parts[1..], sep)
  }

  lemma JoinCons(p: string, parts: seq<string>, sep: char)
    requires |parts| >= 1
    ensures Join([p] + parts, sep) == p + [sep] + Join(parts, sep)
  {
    assert ([p] + parts)[1..] == parts;
  }

  /** Splitting and re-joining gives back the input. */
  lemma {:induction false} JoinSplit(s: string, sep: char)
    ensures Join(Split(s, sep), sep) == s
  {
    if s != [] {
      var rest := Split(s[1..], sep);
      JoinSplit(s[1..], sep);
      if s[0] == sep {
        JoinCons("", rest, sep);
      } else if |rest| == 1 {
        assert Split(s, sep) == [[s[0]] + rest[0]];
      } else {
        JoinCons([s[0]] + rest[0], rest[1..], sep);
        assert rest == [rest[0]] + rest[1..];
        JoinCons(rest[0], rest[1..], sep);
      }
    }
  }

  lemma {:induction false} SplitOfPrefix(w: string, rest: string, sep: char)
    requires sep !in w
    ensures Split(w + rest, sep) == [w + Split(rest, sep)[0]] + Split(rest, sep)[1..]
  {
    if w == [] {
      assert w + rest == rest;
      var r := Split(rest, sep);
      assert w + r[0] == r[0];
      assert [r[0]] + r[1..] == r;
    } else {
      var s := w + rest;
      assert s[1..] == w[1..] + rest;
      SplitOfPrefix(w[1..], rest, sep);
      var r := Split(rest, sep);
      assert s[0] == w[0] && w[0] != sep;
      assert Split(s, sep) == [[w[0]] + (w[1..] + r[0])] + r[1..];
      assert [w[0]] + (w[1..] + r[0]) == w + r[0];
    }
  }

  /** Joining pieces that do not contain the separator and splitting again gives back the pieces. */
  lemma {:induction false} SplitJoin(parts: seq<string>, sep: char)
    requires |parts| >= 1
    requires forall k :: 0 <= k < |parts| ==> sep !in parts[k]
    ensures Split(Join(parts, sep), sep) == parts
  {
    if |parts| == 1 {
      SplitOfPrefix(parts[0], [], sep);
      assert parts[0] + [] == parts[0];
    } else {
      var tail := Join(parts[1..], sep);
      SplitJoin(parts[1..], sep);
      assert Join(parts, sep) == parts[0] + ([sep] + tail);
      SplitOfPrefix(parts[0], [sep] + tail, sep);
      assert ([sep] + tail)[1..] == tail;
      assert parts[0] + "" == parts[0];
    }
  }

  // ---------------------------------------------------------------------------
  // Decimal integers: strconv.Itoa and strconv.Atoi

  predicate IsDigit(c: char) {
    '0' <= c <= '9'
  }

  predicate AllDigits(s: string) {
    forall i :: 0 <= i < |s| ==> IsDigit(s[i])
  }

  function DigitValue(c: char): nat
    requires IsDigit(c)
  {
    c as int - '0' as int
  }

  function DigitChar(d: nat): (c: char)
    requires d < 10
    ensures IsDigit(c) && DigitValue(c) == d
  {
    ('0' as int + d) as char
  }

  /** The value of a string of decimal digits, most significant first. */
  function DecimalValue(s: string): nat
    requires AllDigits(s)
  {
    if s == [] then 0 else DecimalValue(s[..|s| - 1]) * 10 + DigitValue(s[|s| - 1])
  }

  /** The canonical decimal spelling of n: at least one digit and no leading zero. */
  function NatToDecimal(n: nat): (s: string)
    ensures s != [] && AllDigits(s)
    ensures DecimalValue(s) == n
    ensures s[0] == '0' ==> s == "0"
  {
    if n < 10 then [DigitChar(n)]
    else
      var p := NatToDecimal(n / 10);
      var s := p + [DigitChar(n % 10)];
      assert s[..|s| - 1] == p;
      s
  }

  /** The bounds of Go's int on a 64-bit platform. */
  const MinInt: int := -0x8000_0000_0000_0000
  const MaxInt: int := 0x7fff_ffff_ffff_ffff

  predicate IsInt(i: int) {
    MinInt <= i <= MaxInt
  }

  function Pow10(n: nat): (p: nat)
    ensures p >= 1
  {
    if n == 0 then 1 else 10 * Pow10(n - 1)
  }

  /** n digits spell a value below 10^n. */
  lemma {:induction false} DecimalValueBound(s: string)
    requires AllDigits(s)
    ensures DecimalValue(s) < Pow10(|s|)
  {
    if s != [] {
      DecimalValueBound(s[..|s| - 1]);
    }
  }

  lemma {:induction false} Pow10Monotone(a: nat, b: nat)
    requires a <= b
    ensures Pow10(a) <= Pow10(b)
    decreases b - a
  {
    if a < b {
      Pow10Monotone(a + 1, b);
      assert Pow10(a + 1) == 10 * Pow10(a);
    }
  }

  lemma {:induction false} Pow10Add(a: nat, b: nat)
    ensures Pow10(a + b) == Pow10(a) * Pow10(b)
  {
    if a > 0 {
      Pow10Add(a - 1, b);
      assert Pow10(a + b) == 10 * Pow10(a - 1 + b);
    }
  }

  lemma Pow10Of18()
    ensures Pow10(18) == 1_000_000_000_000_000_000
  {
    assert Pow10(3) == 1000;
    Pow10Add(3, 3);
    Pow10Add(6, 6);
    Pow10Add(12, 6);
  }

  /** Up to 18 digits always fit in an int. */
  lemma ShortDecimalFits(s: string)
    requires AllDigits(s)
    ensures |s| <= 18 ==> DecimalValue(s) < 1_000_000_000_000_000_000
  {
    DecimalValueBound(s);
    if |s| <= 18 {
      Pow10Monotone(|s|, 18);
      Pow10Of18();
    }
  }

  /** strconv.Itoa: the decimal spelling of i, with a '-' when negative. */
  function Itoa(i: int): (s: string)
    ensures s != [] && s[0] != '+'
    ensures s[0] == '0' ==> s == "0"
    ensures s[0] == '-' <==> i < 0
    ensures s[0] == '-' ==> |s| >= 2 && s[1] != '0' && AllDigits(s[1..]) && DecimalValue(s[1..]) == -i
    ensures s[0] != '-' ==> AllDigits(s) && DecimalValue(s) == i
  {
    if i < 0 then
      var d := NatToDecimal(-i);
      var s := "-" + d;
      assert s[1..] == d;
      s
    else NatToDecimal(i)
  }

  /** The syntax strconv.Atoi accepts in base 10: an optional sign and at least one digit. */
  predicate IsIntegerSyntax(s: string) {
    if s != [] && (s[0] == '+' || s[0] == '-') then |s| >= 2 && AllDigits(s[1..])
    else s != [] && AllDigits(s)
  }

  /** strconv.Atoi on a 64-bit platform: the value of a well-formed spelling,
      or None when the syntax is wrong or the value does not fit in an int. */
  function Atoi(s: string): (r: Option<int>)
    ensures r.Some? ==> IsIntegerSyntax(s) && IsInt(r.value)
    ensures IsIntegerSyntax(s) && |s| <= 18 ==> r.Some?
    ensures r.Some? && r.value < 0 ==> s[0] == '-'
  {
    if !IsIntegerSyntax(s) then None
    else
      var signed := s[0] == '+' || s[0] == '-';
      var digits := if signed then s[1..] else s;
      assert AllDigits(digits);
      ShortDecimalFits(digits);
      var d: int := DecimalValue(digits);
      var v := if s[0] == '-' then -d else d;
      if IsInt(v) then Some(v) else None
  }

  /** Atoi reads back what Itoa writes, for every int. */
  lemma AtoiItoa(i: int)
    requires IsInt(i)
    ensures Atoi(Itoa(i)) == Some(i)
  {
    var s := Itoa(i);
    if i < 0 {
      assert s[0] == '-';
    }
  }

  /** k zero digits. */
  function Zeros(k: nat): (z: string)
    ensures |z| == k && AllDigits(z)
  {
    seq(k, _ => '0')
  }

  /** Leading zeros do not change a decimal value. */
  lemma {:induction false} DecimalValueZeros(k: nat, d: string)
    requires AllDigits(d)
    ensures AllDigits(Zeros(k) + d)
    ensures DecimalValue(Zeros(k) + d) == DecimalValue(d)
    decreases |d|, k
  {
    var z := Zeros(k);
    assert AllDigits(z + d) by {
      assert forall i :: 0 <= i < |z + d| ==> (z + d)[i] == (if i < k then '0' else d[i - k]);
    }
    if d == [] {
      assert z + d == z;
      if k > 0 {
        DecimalValueZeros(k - 1, []);
        assert Zeros(k - 1) + [] == z[..k - 1];
        assert z[..k - 1] == z[..|z| - 1];
      }
    } else {
      var d' := d[..|d| - 1];
      DecimalValueZeros(k, d');
      assert (z + d)[..|z + d| - 1] == z + d';
      assert (z + d)[|z + d| - 1] == d[|d| - 1];
    }
  }

  /** Atoi on an optional sign followed by digits is the signed value of the
      digits when it fits in an int, and None otherwise. */
  lemma AtoiDigits(sign: string, digits: string)
    requires sign == "" || sign == "+" || sign == "-"
    requires digits != [] && AllDigits(digits)
    ensures IsInt(if sign == "-" then -(DecimalValue(digits) as int) else DecimalValue(digits)) ==>
      Atoi(sign + digits) == Some(if sign == "-" then -(DecimalValue(digits) as int) else DecimalValue(digits))
    ensures !IsInt(if sign == "-" then -(DecimalValue(digits) as int) else DecimalValue(digits)) ==>
      Atoi(sign + digits) == None
  {
    var s := sign + digits;
    if sign == "" {
      assert s == digits;
    } else {
      assert s[0] == sign[0] && s[1..] == digits;
    }
  }

  /** Atoi reads n back from any spelling strconv.Atoi accepts: an optional
      "+" or "-", any number of leading zeros, then the digits of n. So "+5"
      and "007" read as 5 and 7, and "-0" as 0. A value outside Go's int
      range gives None. */
  lemma AtoiPadded(sign: string, k: nat, n: nat)
    requires sign == "" || sign == "+" || sign == "-"
    ensures IsInt(if sign == "-" then -(n as int) else n) ==>
      Atoi(sign + (Zeros(k) + NatToDecimal(n))) == Some(if sign == "-" then -(n as int) else n)
    ensures !IsInt(if sign == "-" then -(n as int) else n) ==>
      Atoi(sign + (Zeros(k) + NatToDecimal(n))) == None
  {
    var digits := Zeros(k) + NatToDecimal(n);
    DecimalValueZeros(k, NatToDecimal(n));
    AtoiDigits(sign, digits);
  }

  /** Digits with a non-zero first digit spell a positive value. */
  lemma {:induction false} LeadingDigitPositive(d: string)
    requires d != [] && AllDigits(d) && d[0] != '0'
    ensures DecimalValue(d) >= 1
    decreases |d|
  {
    if |d| > 1 {
      LeadingDigitPositive(d[..|d| - 1]);
    }
  }

  /** A digit string without a leading zero (or "0" itself) is the canonical
      spelling of its value. */
  lemma {:induction false} CanonicalDigits(d: string)
    requires d != [] && AllDigits(d) && (d[0] != '0' || |d| == 1)
    ensures NatToDecimal(DecimalValue(d)) == d
    decreases |d|
  {
    var n := DecimalValue(d);
    if |d| == 1 {
      assert d[..0] == [];
      assert n == DecimalValue(d[..0]) * 10 + DigitValue(d[0]);
      assert DigitChar(n) == d[0];
    } else {
      var p := d[..|d| - 1];
      assert p[0] == d[0];
      LeadingDigitPositive(p);
      CanonicalDigits(p);
      assert n / 10 == DecimalValue(p) && n % 10 == DigitValue(d[|d| - 1]);
      assert DigitChar(n % 10) == d[|d| - 1];
      assert d == p + [d[|d| - 1]];
    }
  }

  /** Every digit string is some zeros followed by the canonical spelling of
      its value, so AtoiPadded covers every spelling Atoi can accept. */
  lemma {:induction false} DigitsArePadded(d: string) returns (k: nat)
    requires d != [] && AllDigits(d)
    ensures k < |d| && d == Zeros(k) + NatToDecimal(DecimalValue(d))
  {
    if d[0] != '0' || |d| == 1 {
      CanonicalDigits(d);
      k := 0;
      assert d == Zeros(0) + d;
    } else {
      var k' := DigitsArePadded(d[1..]);
      DecimalValueZeros(1, d[1..]);
      assert d == Zeros(1) + d[1..] && d == ['0'] + d[1..];
      OneMoreZero(d[1..], k', NatToDecimal(DecimalValue(d[1..])));
      k := k' + 1;
    }
  }

  lemma OneMoreZero(rest: string, k: nat, canon: string)
    requires rest == Zeros(k) + canon
    ensures ['0'] + rest == Zeros(k + 1) + canon
  {
    assert Zeros(k + 1) == ['0'] + Zeros(k);
  }

  /** A "+" sign is accepted and changes nothing: "+5" reads as 5. */
  lemma AtoiPlusSign()
    ensures Atoi("+5") == Some(5)
  {
    AtoiPadded("+", 0, 5);
    assert "+5" == "+" + (Zeros(0) + NatToDecimal(5));
  }

  /** Leading zeros are accepted: "007" reads as 7. */
  lemma AtoiLeadingZeros()
    ensures Atoi("007") == Some(7)
  {
    AtoiPadded("", 2, 7);
    assert "007" == "" + (Zeros(2) + NatToDecimal(7));
  }

  /** "-0" reads as 0. */
  lemma AtoiMinusZero()
    ensures Atoi("-0") == Some(0)
  {
    AtoiPadded("-", 0, 0);
    assert "-0" == "-" + (Zeros(0) + NatToDecimal(0));
  }

  /** Itoa never produces a sign-prefixed or zero-padded spelling, so it differs
      from every such key even when Atoi would read the key as the same number. */
  lemma ItoaIsCanonical(i: int, key: string)
    requires key == [] || key[0] == '+' || (|key| >= 2 && key[0] == '0') || (|key| >= 2 && key[0] == '-' && key[1] == '0')
    ensures Itoa(i) != key
  {
  }

  /** Distinct integers have distinct decimal spellings. */
  lemma ItoaInjective(i: int, j: int)
    requires Itoa(i) == Itoa(j)
    ensures i == j
  {
  }
}
