/**
 * OAuth 1.0 request signing (RFC 5849 section 3.4): percent-encoding,
 * the base string URI, parameter normalisation, the signature base
 * string and the HMAC-SHA1 key.
 *
 * Each imperative routine of the signer is a method that appends to a
 * buffer value, proved equal to a specification function; the
 * properties of the signer are lemmas about those functions.
 */
module Signer {
  import opened Base
  import opened Http

  /**
   * The library code the signer calls but does not define: the keyed
   * HMAC-SHA1 digest rendered in Base64 (arguments key, text) and the
   * form decoder VariableMap.fromUrlEncodedString.
   */
  datatype Library = Library(hmacSha1: (string, string) -> string, parseForm: string -> VariableMap)

  // =====================================================================
  // Percent-encoding
  // =====================================================================

  /** A UTF-16 code unit: a Java `char`. */
  type CodeUnit = u: int | 0 <= u < 0x10000

  /** The UTF-16 code units of one character, a surrogate pair above U+FFFF. */
  function CodeUnits(c: char): (r: seq<CodeUnit>)
    ensures c as int < 0x10000 ==> r == [c as int]
    ensures c as int >= 0x10000 ==> |r| == 2 && 0xD800 <= r[0] < 0xDC00 && 0xDC00 <= r[1] < 0xE000
    ensures c as int >= 0x10000 ==> 0x10000 + (r[0] as int - 0xD800) * 0x400 + (r[1] as int - 0xDC00) == c as int
  {
    var n := c as int;
    if n < 0x10000 then [n]
    else [0xD800 + (n - 0x10000) / 0x400, 0xDC00 + (n - 0x10000) % 0x400]
  }

  /** String.toCharArray. */
  function ToCharArray(s: string): seq<CodeUnit>
  {
    FlatMap(s, CodeUnits)
  }

  /** The unreserved set of section 2.3 of RFC 3986, as the code tests it on a code unit. */
  predicate UnreservedUnit(u: int)
  {
    || 0x41 <= u <= 0x5A
    || 0x61 <= u <= 0x7A
    || 0x30 <= u <= 0x39
    || u == '-' as int || u == '.' as int || u == '_' as int || u == '~' as int
  }

  predicate Unreserved(c: char)
  {
    UnreservedUnit(c as int)
  }

  /** Integer.toHexString of a non-negative value: the shortest lower-case digits. */
  function HexString(v: nat): (r: string)
    ensures |r| > 0
    ensures v < 16 <==> |r| == 1
  {
    if v < 16 then [LowerHexDigit(v)] else HexString(v / 16) + [LowerHexDigit(v % 16)]
  }

  /** Integer.toHexString(v).toUpperCase(), digit by digit. */
  function UpperHexString(v: nat): (r: string)
    ensures |r| > 0
  {
    if v < 16 then [UpperHexDigit(v)] else UpperHexString(v / 16) + [UpperHexDigit(v % 16)]
  }

  /** Upper-casing the lower-case hex digits gives the upper-case ones, of the same count. */
  lemma {:induction false} UpperHexStringIsUpperCased(v: nat)
    ensures UpperHexString(v) == UpperAscii(HexString(v))
    ensures |UpperHexString(v)| == 1 <==> v < 16
  {
    if v >= 16 {
      UpperHexStringIsUpperCased(v / 16);
      assert UpperAscii(HexString(v)) == UpperAscii(HexString(v / 16)) + [UpperChar(LowerHexDigit(v % 16))];
    }
  }

  /**
   * encodeIntToPercentString: "%", a "0" when the upper-cased hex digits
   * are a single one, then those digits.
   */
  function IntToPercentString(v: nat): string
  {
    var hexString := UpperHexString(v);
    "%" + (if |hexString| == 1 then "0" else "") + hexString
  }

  /** "%" and two upper-case hex digits: the escape of one byte. */
  function Triplet(b: nat): (r: string)
    requires b < 256
  {
    ['%', UpperHexDigit(b / 16), UpperHexDigit(b % 16)]
  }

  /** For a byte, encodeIntToPercentString gives exactly the zero-padded upper-case triplet. */
  lemma IntToPercentStringOfByte(v: nat)
    requires v < 256
    ensures IntToPercentString(v) == Triplet(v)
  {
    UpperHexStringIsUpperCased(v);
    if v >= 16 {
      assert UpperHexString(v / 16) == [UpperHexDigit(v / 16)];
    }
  }

  /**
   * One code unit: copied when unreserved; above 0xFF the high byte
   * ((chr & 0xFF00) >> 8) and the low byte (chr & 0x00FF) are escaped in
   * turn; otherwise the unit itself is escaped.
   */
  function EncodeUnit(u: CodeUnit): string
  {
    if UnreservedUnit(u) then [u as char]
    else if u > 255 then IntToPercentString(u / 256) + IntToPercentString(u % 256)
    else IntToPercentString(u)
  }

  function EncodeUnits(us: seq<CodeUnit>): string
  {
    FlatMap(us, EncodeUnit)
  }

  /** Signer.percentEncode(input), as a value. */
  function PercentEncoded(s: string): string
  {
    EncodeUnits(ToCharArray(s))
  }

  /** Signer.encodeIntToPercentString(val, buf). */
  method EncodeIntToPercentString(val: nat, buf: string) returns (out: string)
    ensures out == buf + IntToPercentString(val)
  {
    out := buf + "%";
    var hexString := UpperHexString(val);
    if |hexString| == 1 {
      out := out + "0";
    }
    out := out + hexString;
  }

  /** Signer.percentEncode(input, buf): the encoding of input appended to buf. */
  method PercentEncode(input: string, buf: string) returns (out: string)
    ensures out == buf + PercentEncoded(input)
  {
    var chars := ToCharArray(input);
    out := buf;
    var i := 0;
    while i < |chars|
      invariant 0 <= i <= |chars|
      invariant out == buf + EncodeUnits(chars[..i])
    {
      var chr := chars[i];
      ghost var before := out;
      if UnreservedUnit(chr) {
        out := out + [chr as char];
      } else if chr > 255 {
        var hibyte := chr / 256;
        out := EncodeIntToPercentString(hibyte, out);
        var lobyte := chr % 256;
        out := EncodeIntToPercentString(lobyte, out);
        AppendAssociative(before, IntToPercentString(hibyte), IntToPercentString(lobyte));
      } else {
        out := EncodeIntToPercentString(chr, out);
      }
      assert out == before + EncodeUnit(chr);
      FlatMapPrefix(chars, i, EncodeUnit);
      AppendAssociative(buf, EncodeUnits(chars[..i]), EncodeUnit(chr));
      i := i + 1;
    }
    assert chars[..i] == chars;
  }

  /** Percent-encoding distributes over concatenation. */
  lemma PercentEncodedAppend(a: string, b: string)
    ensures PercentEncoded(a + b) == PercentEncoded(a) + PercentEncoded(b)
  {
    FlatMapAppend(a, b, CodeUnits);
    FlatMapAppend(ToCharArray(a), ToCharArray(b), EncodeUnit);
  }

  lemma PercentEncodedSingle(c: char)
    ensures PercentEncoded([c]) == EncodeUnits(CodeUnits(c))
  {
    FlatMapSingle(c, CodeUnits);
  }

  /**
   * The escape of each single character: an unreserved one is copied; any
   * other up to 0xFF becomes one triplet; one above 0xFF becomes the
   * triplets of the high and the low byte of each of its UTF-16 code units
   * (not of its UTF-8 bytes).
   */
  lemma PercentEncodedChar(c: char)
    ensures Unreserved(c) ==> PercentEncoded([c]) == [c]
    ensures !Unreserved(c) && c as int <= 0xFF ==> PercentEncoded([c]) == Triplet(c as int)
    ensures 0xFF < c as int < 0x10000 ==>
      PercentEncoded([c]) == Triplet(c as int / 256) + Triplet(c as int % 256)
    ensures c as int >= 0x10000 ==>
      var units := CodeUnits(c);
      PercentEncoded([c]) == Triplet(units[0] / 256) + Triplet(units[0] % 256)
                             + Triplet(units[1] / 256) + Triplet(units[1] % 256)
  {
    PercentEncodedSingle(c);
    var units := CodeUnits(c);
    if |units| == 1 {
      assert units == [units[0]];
      FlatMapSingle(units[0], EncodeUnit);
      var u := units[0];
      if !UnreservedUnit(u) {
        if u > 255 {
          IntToPercentStringOfByte(u / 256);
          IntToPercentStringOfByte(u % 256);
        } else {
          IntToPercentStringOfByte(u);
        }
      }
    } else {
      assert units == [units[0]] + [units[1]];
      FlatMapAppend([units[0]], [units[1]], EncodeUnit);
      FlatMapSingle(units[0], EncodeUnit);
      FlatMapSingle(units[1], EncodeUnit);
      IntToPercentStringOfByte(units[0] / 256);
      IntToPercentStringOfByte(units[0] % 256);
      IntToPercentStringOfByte(units[1] / 256);
      IntToPercentStringOfByte(units[1] % 256);
      var hi := Triplet(units[0] / 256) + Triplet(units[0] % 256);
      AppendAssociative(hi, Triplet(units[1] / 256), Triplet(units[1] % 256));
    }
  }

  /** The characters percent-encoding can produce. */
  predicate EncodedChar(c: char)
  {
    Unreserved(c) || c == '%' || IsUpperHexDigit(c)
  }

  predicate InEncodedAlphabet(s: string)
  {
    forall i :: 0 <= i < |s| ==> EncodedChar(s[i])
  }

  lemma TripletAlphabet(b: nat)
    requires b < 256
    ensures InEncodedAlphabet(Triplet(b))
  {
  }

  lemma {:induction false} EncodeUnitsAlphabet(us: seq<CodeUnit>)
    ensures InEncodedAlphabet(EncodeUnits(us))
    decreases |us|
  {
    if us != [] {
      EncodeUnitsAlphabet(us[..|us| - 1]);
      var u := us[|us| - 1];
      if !UnreservedUnit(u) {
        if u > 255 {
          IntToPercentStringOfByte(u / 256);
          IntToPercentStringOfByte(u % 256);
          TripletAlphabet(u / 256);
          TripletAlphabet(u % 256);
        } else {
          IntToPercentStringOfByte(u);
          TripletAlphabet(u);
        }
      }
    }
  }

  /**
   * The output holds only unreserved characters, '%' and upper-case hex
   * digits, so never a separator of the base string, the parameter string
   * or the Authorization header.
   */
  lemma PercentEncodedAlphabet(s: string)
    ensures InEncodedAlphabet(PercentEncoded(s))
    ensures '&' !in PercentEncoded(s) && '=' !in PercentEncoded(s)
    ensures '"' !in PercentEncoded(s) && ',' !in PercentEncoded(s)
  {
    EncodeUnitsAlphabet(ToCharArray(s));
  }

  lemma {:induction false} PercentEncodedLength(s: string)
    ensures |PercentEncoded(s)| >= |s|
    ensures (exists i :: 0 <= i < |s| && !Unreserved(s[i])) ==> |PercentEncoded(s)| > |s|
    decreases |s|
  {
    if s != [] {
      var init, c := s[..|s| - 1], s[|s| - 1];
      assert s == init + [c];
      PercentEncodedAppend(init, [c]);
      PercentEncodedLength(init);
      PercentEncodedChar(c);
      if exists i :: 0 <= i < |s| && !Unreserved(s[i]) {
        var i :| 0 <= i < |s| && !Unreserved(s[i]);
        if i < |s| - 1 {
          assert init[i] == s[i];
        }
      }
    }
  }

  /** Percent-encoding leaves a string unchanged exactly when all its characters are unreserved. */
  lemma {:induction false} PercentEncodedIdentity(s: string)
    ensures PercentEncoded(s) == s <==> forall i :: 0 <= i < |s| ==> Unreserved(s[i])
    decreases |s|
  {
    PercentEncodedLength(s);
    if s != [] && forall i :: 0 <= i < |s| ==> Unreserved(s[i]) {
      var init, c := s[..|s| - 1], s[|s| - 1];
      assert s == init + [c];
      PercentEncodedAppend(init, [c]);
      PercentEncodedChar(c);
      PercentEncodedIdentity(init);
    }
  }

  /**
   * Because characters above 0xFF are escaped per UTF-16 code unit, two
   * different strings can share one encoding: U+0100 and the two
   * characters U+0001 U+0000 both become "%01%00".
   */
  lemma PercentEncodedCollision()
    ensures ['\U{100}'] != ['\U{1}', '\U{0}']
    ensures PercentEncoded(['\U{100}']) == PercentEncoded(['\U{1}', '\U{0}']) == "%01%00"
  {
    WideCharEncoded();
    ControlPairEncoded();
  }

  /** U+0100 is one code unit above 0xFF: its high byte 01 and low byte 00 are escaped. */
  lemma WideCharEncoded()
    ensures PercentEncoded(['\U{100}']) == "%01%00"
  {
    PercentEncodedChar('\U{100}');
    assert Triplet(1) == "%01" && Triplet(0) == "%00";
  }

  /** U+0001 and U+0000 are escaped one byte each. */
  lemma ControlPairEncoded()
    ensures PercentEncoded(['\U{1}', '\U{0}']) == "%01%00"
  {
    PercentEncodedChar('\U{1}');
    PercentEncodedChar('\U{0}');
    assert Triplet(1) == "%01" && Triplet(0) == "%00";
    assert ['\U{1}', '\U{0}'] == ['\U{1}'] + ['\U{0}'];
    PercentEncodedAppend(['\U{1}'], ['\U{0}']);
  }

  // =====================================================================
  // Base string URI (section 3.4.1.2)
  // =====================================================================

  /** The scheme and authority lower-cased, the raw path kept; query and fragment dropped. */
  function BaseStringUri(u: Uri): string
  {
    PercentEncoded(LowerAscii(u.scheme) + "://" + LowerAscii(u.authority) + u.rawPath)
  }

  /** Signer.encodeBaseStringURI(requestURI, buf). */
  method EncodeBaseStringUri(requestUri: Uri, buf: string) returns (out: string)
    ensures out == buf + BaseStringUri(requestUri)
  {
    var temp := LowerAscii(requestUri.scheme) + "://" + LowerAscii(requestUri.authority) + requestUri.rawPath;
    out := PercentEncode(temp, buf);
  }

  /** The separator after the scheme, encoded. */
  lemma SchemeSeparatorEncoded()
    ensures PercentEncoded("://") == "%3A%2F%2F"
  {
    var colon, slash := [':'], ['/'];
    SchemeSeparatorCharsEncoded();
    SeparatorPieces();
    PercentEncodedAppend(colon + slash, slash);
    PercentEncodedAppend(colon, slash);
  }

  /** "://" and its escape, each as three pieces. */
  lemma SeparatorPieces()
    ensures "://" == [':'] + ['/'] + ['/']
    ensures "%3A" + "%2F" + "%2F" == "%3A%2F%2F"
  {
  }

  /** The two reserved characters of "://", each encoded as one triplet. */
  lemma SchemeSeparatorCharsEncoded()
    ensures PercentEncoded([':']) == "%3A"
    ensures PercentEncoded(['/']) == "%2F"
  {
    PercentEncodedChar(':');
    assert Triplet(':' as int) == "%3A";
    PercentEncodedChar('/');
    assert Triplet('/' as int) == "%2F";
  }

  /**
   * The encoded URI is the encoded scheme, "%3A%2F%2F", the encoded
   * authority and the encoded path; it does not depend on the query and
   * holds no '&'.
   */
  lemma BaseStringUriParts(u: Uri)
    ensures BaseStringUri(u) == PercentEncoded(LowerAscii(u.scheme)) + "%3A%2F%2F"
                                + PercentEncoded(LowerAscii(u.authority)) + PercentEncoded(u.rawPath)
    ensures forall q :: BaseStringUri(u.(rawQuery := q)) == BaseStringUri(u)
    ensures '&' !in BaseStringUri(u)
  {
    var s, a := LowerAscii(u.scheme), LowerAscii(u.authority);
    PercentEncodedAppend(s + "://" + a, u.rawPath);
    PercentEncodedAppend(s + "://", a);
    PercentEncodedAppend(s, "://");
    SchemeSeparatorEncoded();
    PercentEncodedAlphabet(s + "://" + a + u.rawPath);
  }

  /** Lower-casing after upper-casing is lower-casing. */
  lemma LowerOfUpper(s: string)
    ensures LowerAscii(UpperAscii(s)) == LowerAscii(s)
  {
  }

  /** The scheme and the authority are compared without regard to (ASCII) case. */
  lemma BaseStringUriCaseInsensitive(u: Uri)
    ensures BaseStringUri(u.(scheme := UpperAscii(u.scheme), authority := UpperAscii(u.authority)))
            == BaseStringUri(u)
  {
    LowerOfUpper(u.scheme);
    LowerOfUpper(u.authority);
  }

  // =====================================================================
  // Parameter pairs and their order (Signer.Pair)
  // =====================================================================

  datatype Pair = Pair(name: string, value: string)

  /**
   * String.compareTo: the first differing characters' difference, else the
   * length difference.  Characters are compared as scalar values, where
   * Java compares UTF-16 code units; the two orders agree on the
   * percent-encoded (all-ASCII) text the signer sorts.
   */
  function CompareStrings(a: string, b: string): int
  {
    if a == [] || b == [] then |a| - |b|
    else if a[0] != b[0] then a[0] as int - b[0] as int
    else CompareStrings(a[1..], b[1..])
  }

  /** Pair.compareTo: by name, then by value. */
  function ComparePairs(p: Pair, q: Pair): int
  {
    var ret := CompareStrings(p.name, q.name);
    if ret == 0 then CompareStrings(p.value, q.value) else ret
  }

  predicate PairLeq(p: Pair, q: Pair)
  {
    ComparePairs(p, q) <= 0
  }

  lemma {:induction false} CompareStringsProperties(a: string, b: string)
    ensures CompareStrings(a, b) == -CompareStrings(b, a)
    ensures CompareStrings(a, b) == 0 <==> a == b
    decreases |a|
  {
    if a != [] && b != [] && a[0] == b[0] {
      CompareStringsProperties(a[1..], b[1..]);
      assert a == [a[0]] + a[1..] && b == [b[0]] + b[1..];
    }
  }

  lemma {:induction false} CompareStringsTransitive(a: string, b: string, c: string)
    requires CompareStrings(a, b) <= 0 && CompareStrings(b, c) <= 0
    ensures CompareStrings(a, c) <= 0
    decreases |a|
  {
    if a != [] && b != [] && c != [] && a[0] == b[0] && b[0] == c[0] {
      CompareStringsTransitive(a[1..], b[1..], c[1..]);
    }
  }

  /** Pair.compareTo is a total order in which only equal pairs compare as equal. */
  lemma PairOrder(p: Pair, q: Pair, r: Pair)
    ensures PairLeq(p, q) || PairLeq(q, p)
    ensures PairLeq(p, q) && PairLeq(q, p) ==> p == q
    ensures PairLeq(p, q) && PairLeq(q, r) ==> PairLeq(p, r)
  {
    CompareStringsProperties(p.name, q.name);
    CompareStringsProperties(p.value, q.value);
    CompareStringsProperties(q.name, r.name);
    CompareStringsProperties(p.name, r.name);
    if PairLeq(p, q) && PairLeq(q, r) {
      CompareStringsTransitive(p.name, q.name, r.name);
      if CompareStrings(p.name, q.name) == 0 && CompareStrings(q.name, r.name) == 0 {
        CompareStringsTransitive(p.value, q.value, r.value);
      }
    }
  }

  predicate Sorted(ps: seq<Pair>)
  {
    forall i, j :: 0 <= i < j < |ps| ==> PairLeq(ps[i], ps[j])
  }

  /** p is at or below every element of ps. */
  predicate AtOrBelowAll(p: Pair, ps: seq<Pair>)
  {
    forall j :: 0 <= j < |ps| ==> PairLeq(p, ps[j])
  }

  lemma SortedCons(p: Pair, ps: seq<Pair>)
    requires AtOrBelowAll(p, ps) && Sorted(ps)
    ensures Sorted([p] + ps)
  {
    forall i, j | 0 <= i < j < |[p] + ps| ensures PairLeq(([p] + ps)[i], ([p] + ps)[j]) {
      if i > 0 {
        assert ([p] + ps)[i] == ps[i - 1];
      }
    }
  }

  /** Collections.sort's step: the pair goes before the first pair it is at or below. */
  function Insert(ps: seq<Pair>, p: Pair): seq<Pair>
  {
    if ps == [] then [p]
    else if PairLeq(p, ps[0]) then [p] + ps
    else [ps[0]] + Insert(ps[1..], p)
  }

  /** Inserting into a sorted sequence keeps it sorted and adds exactly the one pair. */
  lemma {:induction false} InsertSorted(ps: seq<Pair>, p: Pair)
    requires Sorted(ps)
    ensures Sorted(Insert(ps, p))
    ensures multiset(Insert(ps, p)) == multiset(ps) + multiset{p}
  {
    if ps == [] {
    } else if PairLeq(p, ps[0]) {
      InsertAtHead(ps, p);
    } else {
      SortedTail(ps);
      InsertSorted(ps[1..], p);
      InsertBehindHead(ps, p, Insert(ps[1..], p));
    }
  }

  lemma InsertAtHead(ps: seq<Pair>, p: Pair)
    requires Sorted(ps) && ps != [] && PairLeq(p, ps[0])
    ensures Sorted([p] + ps)
  {
    forall j | 0 <= j < |ps| ensures PairLeq(p, ps[j]) {
      PairOrder(p, ps[0], ps[j]);
    }
    SortedCons(p, ps);
  }

  lemma InsertBehindHead(ps: seq<Pair>, p: Pair, rest: seq<Pair>)
    requires Sorted(ps) && ps != [] && !PairLeq(p, ps[0])
    requires Sorted(rest) && multiset(rest) == multiset(ps[1..]) + multiset{p}
    ensures Sorted([ps[0]] + rest)
    ensures multiset([ps[0]] + rest) == multiset(ps) + multiset{p}
  {
    PairOrder(p, ps[0], p);
    forall j | 0 <= j < |rest| ensures PairLeq(ps[0], rest[j]) {
      assert rest[j] in multiset(rest);
      if rest[j] != p {
        assert rest[j] in multiset(ps[1..]);
        var k :| 0 <= k < |ps[1..]| && ps[1..][k] == rest[j];
        assert ps[k + 1] == rest[j];
      }
    }
    SortedCons(ps[0], rest);
    assert ps == [ps[0]] + ps[1..];
  }

  /** Collections.sort over the pairs: each pair in turn inserted into the sorted prefix. */
  function SortPairs(ps: seq<Pair>): seq<Pair>
  {
    if ps == [] then [] else Insert(SortPairs(ps[..|ps| - 1]), ps[|ps| - 1])
  }

  /** Sorting yields a sorted permutation of its input. */
  lemma {:induction false} SortPairsSorted(ps: seq<Pair>)
    ensures Sorted(SortPairs(ps))
    ensures multiset(SortPairs(ps)) == multiset(ps)
  {
    if ps != [] {
      var init := ps[..|ps| - 1];
      SortPairsSorted(init);
      InsertSorted(SortPairs(init), ps[|ps| - 1]);
      MultisetOfSnoc(ps);
    }
  }

  /** A sequence's multiset is that of all but its last element, plus the last. */
  lemma MultisetOfSnoc<T>(s: seq<T>)
    requires s != []
    ensures multiset(s) == multiset(s[..|s| - 1]) + multiset{s[|s| - 1]}
  {
    assert s == s[..|s| - 1] + [s[|s| - 1]];
  }

  lemma SortedTail(a: seq<Pair>)
    requires Sorted(a) && a != []
    ensures Sorted(a[1..])
  {
    forall i, j | 0 <= i < j < |a| - 1 ensures PairLeq(a[1..][i], a[1..][j]) {
      assert a[1..][i] == a[i + 1] && a[1..][j] == a[j + 1];
    }
  }

  /** The head of a sorted sequence is at or below each of its elements. */
  lemma HeadIsLeast(a: seq<Pair>, x: Pair)
    requires Sorted(a) && x in multiset(a)
    ensures PairLeq(a[0], x)
  {
    var i :| 0 <= i < |a| && a[i] == x;
    if i == 0 {
      PairOrder(x, x, x);
    }
  }

  /** A multiset of pairs has exactly one sorted arrangement. */
  lemma {:induction false} SortedUnique(a: seq<Pair>, b: seq<Pair>)
    requires Sorted(a) && Sorted(b) && multiset(a) == multiset(b)
    ensures a == b
    decreases |a|
  {
    if a == [] {
      assert |multiset(b)| == 0;
    } else {
      SortedHeadsEqual(a, b);
      MultisetOfTail(a);
      MultisetOfTail(b);
      SortedTail(a);
      SortedTail(b);
      SortedUnique(a[1..], b[1..]);
      SameHeadSameTail(a, b);
    }
  }

  /** Two sorted arrangements of one multiset start with the same pair. */
  lemma SortedHeadsEqual(a: seq<Pair>, b: seq<Pair>)
    requires Sorted(a) && Sorted(b) && multiset(a) == multiset(b) && a != []
    ensures b != [] && a[0] == b[0]
  {
    assert a[0] in multiset(b);
    HeadIsLeast(b, a[0]);
    assert b[0] in multiset(a);
    HeadIsLeast(a, b[0]);
    PairOrder(a[0], b[0], a[0]);
  }

  /** A sequence's multiset is its head plus that of its tail. */
  lemma MultisetOfTail<T>(s: seq<T>)
    requires s != []
    ensures multiset(s[1..]) == multiset(s) - multiset{s[0]}
  {
    assert s == [s[0]] + s[1..];
  }

  lemma SameHeadSameTail<T>(a: seq<T>, b: seq<T>)
    requires a != [] && b != [] && a[0] == b[0] && a[1..] == b[1..]
    ensures a == b
  {
    assert a == [a[0]] + a[1..] && b == [b[0]] + b[1..];
  }

  /** Sorting yields the one sorted permutation of its input. */
  lemma SortPairsIsTheSortedPermutation(ps: seq<Pair>, sorted: seq<Pair>)
    requires Sorted(sorted) && multiset(sorted) == multiset(ps)
    ensures SortPairs(ps) == sorted
  {
    SortPairsSorted(ps);
    SortedUnique(SortPairs(ps), sorted);
  }

  // =====================================================================
  // Collecting the parameters (section 3.4.1.3)
  // =====================================================================

  /** The raw (name, value) occurrences of one entry, in order. */
  function EntryPairs(e: Entry): (r: seq<Pair>)
    ensures |r| == |e.values|
  {
    seq(|e.values|, j requires 0 <= j < |e.values| => Pair(e.name, e.values[j]))
  }

  /** The raw (name, value) occurrences of a map, one per value, in iteration order. */
  function Occurrences(es: seq<Entry>): seq<Pair>
  {
    if es == [] then [] else Occurrences(es[..|es| - 1]) + EntryPairs(es[|es| - 1])
  }

  /** The number of values held by a map. */
  function ValueCount(es: seq<Entry>): nat
  {
    if es == [] then 0 else ValueCount(es[..|es| - 1]) + |es[|es| - 1].values|
  }

  /** The map holds (n, v): some entry named n has v among its values. */
  predicate Holds(es: seq<Entry>, n: string, v: string)
  {
    exists k, j :: 0 <= k < |es| && 0 <= j < |es[k].values| && es[k].name == n && es[k].values[j] == v
  }

  /** One occurrence per value, and an occurrence exactly for each (name, value) the map holds. */
  lemma {:induction false} OccurrencesOfMap(es: seq<Entry>, n: string, v: string)
    ensures |Occurrences(es)| == ValueCount(es)
    ensures Pair(n, v) in Occurrences(es) <==> Holds(es, n, v)
    decreases |es|
  {
    if es != [] {
      var init, e := es[..|es| - 1], es[|es| - 1];
      OccurrencesOfMap(init, n, v);
      HoldsSnoc(es, n, v);
    }
  }

  /** What a map holds is what all but its last entry hold, plus the last entry's pairs. */
  lemma HoldsSnoc(es: seq<Entry>, n: string, v: string)
    requires es != []
    ensures Holds(es, n, v) <==> Holds(es[..|es| - 1], n, v) || Pair(n, v) in EntryPairs(es[|es| - 1])
  {
    var init, e := es[..|es| - 1], es[|es| - 1];
    if Holds(es, n, v) {
      var k, j :| 0 <= k < |es| && 0 <= j < |es[k].values| && es[k].name == n && es[k].values[j] == v;
      if k < |es| - 1 {
        assert init[k] == es[k];
      } else {
        assert EntryPairs(e)[j] == Pair(n, v);
      }
    }
    if Holds(init, n, v) {
      var k, j :| 0 <= k < |init| && 0 <= j < |init[k].values| && init[k].name == n && init[k].values[j] == v;
      assert es[k] == init[k];
    }
    if Pair(n, v) in EntryPairs(e) {
      var j :| 0 <= j < |e.values| && EntryPairs(e)[j] == Pair(n, v);
      assert es[|es| - 1].values[j] == v;
    }
  }

  function EncodePair(p: Pair): Pair
  {
    Pair(PercentEncoded(p.name), PercentEncoded(p.value))
  }

  function EncodeAll(ps: seq<Pair>): (r: seq<Pair>)
    ensures |r| == |ps|
  {
    seq(|ps|, i requires 0 <= i < |ps| => EncodePair(ps[i]))
  }

  lemma EncodeAllAppend(a: seq<Pair>, b: seq<Pair>)
    ensures EncodeAll(a + b) == EncodeAll(a) + EncodeAll(b)
  {
  }

  /** Encoding each pair maps equal multisets of raw pairs to equal multisets of encoded pairs. */
  lemma {:induction false} EncodeAllMultiset(a: seq<Pair>, b: seq<Pair>)
    requires multiset(a) == multiset(b)
    ensures multiset(EncodeAll(a)) == multiset(EncodeAll(b))
    decreases |a|
  {
    if a == [] {
      assert |multiset(b)| == 0;
    } else {
      assert a[0] in multiset(b);
      var k :| 0 <= k < |b| && b[k] == a[0];
      var restA := EncodeAllRemove(a, 0);
      var restB := EncodeAllRemove(b, k);
      EncodeAllMultiset(restA, restB);
    }
  }

  /** Taking one pair out of a sequence takes it, and its encoding, out of the multisets. */
  lemma EncodeAllRemove(b: seq<Pair>, k: nat) returns (rest: seq<Pair>)
    requires k < |b|
    ensures |rest| == |b| - 1
    ensures multiset(rest) == multiset(b) - multiset{b[k]}
    ensures multiset(EncodeAll(b)) == multiset(EncodeAll(rest)) + multiset{EncodePair(b[k])}
  {
    var left, right := b[..k], b[k + 1..];
    rest := left + right;
    assert b == left + [b[k]] + right;
    assert multiset(b) == multiset(rest) + multiset{b[k]};
    EncodeAllAppend(left + [b[k]], right);
    EncodeAllAppend(left, [b[k]]);
    EncodeAllAppend(left, right);
    assert EncodeAll([b[k]]) == [EncodePair(b[k])];
  }

  /** The pairs encodeParameterSet adds for a map. */
  function EncodedPairs(m: VariableMap): seq<Pair>
  {
    EncodeAll(Occurrences(m.entries))
  }

  /**
   * Signer.encodeParameterSet: appends, for every name and each of its
   * values, the pair of the encoded name and the encoded value.
   */
  method EncodeParameterSet(params: VariableMap, encodedParameters: seq<Pair>) returns (out: seq<Pair>)
    ensures out == encodedParameters + EncodedPairs(params)
  {
    out := encodedParameters;
    var es := params.entries;
    var k := 0;
    while k < |es|
      invariant 0 <= k <= |es|
      invariant out == encodedParameters + EncodeAll(Occurrences(es[..k]))
    {
      var name := PercentEncode(es[k].name, "");
      assert name == PercentEncoded(es[k].name);
      var vs := es[k].values;
      ghost var done := Occurrences(es[..k]);
      ghost var entry := EntryPairs(es[k]);
      var j := 0;
      while j < |vs|
        invariant 0 <= j <= |vs|
        invariant out == encodedParameters + EncodeAll(done + entry[..j])
      {
        var value := PercentEncode(vs[j], "");
        assert value == PercentEncoded(vs[j]);
        assert Pair(name, value) == EncodePair(entry[j]);
        EncodeAllStep(encodedParameters, done, entry, j);
        out := out + [Pair(name, value)];
        j := j + 1;
      }
      assert entry[..j] == entry;
      OccurrencesStep(es, k);
      k := k + 1;
    }
    assert es[..k] == es;
  }

  /** One more pair of the current entry: its encoding is appended. */
  lemma EncodeAllStep(front: seq<Pair>, done: seq<Pair>, entry: seq<Pair>, j: nat)
    requires j < |entry|
    ensures front + EncodeAll(done + entry[..j + 1]) == front + EncodeAll(done + entry[..j]) + [EncodePair(entry[j])]
  {
    assert entry[..j + 1] == entry[..j] + [entry[j]];
    AppendAssociative(done, entry[..j], [entry[j]]);
    EncodeAllAppend(done + entry[..j], [entry[j]]);
    AppendAssociative(front, EncodeAll(done + entry[..j]), [EncodePair(entry[j])]);
  }

  /** One more entry: its pairs follow those of the entries before it. */
  lemma OccurrencesStep(es: seq<Entry>, k: nat)
    requires k < |es|
    ensures Occurrences(es[..k + 1]) == Occurrences(es[..k]) + EntryPairs(es[k])
  {
    assert es[..k + 1][..k] == es[..k];
  }


  // =====================================================================
  // Parameter normalisation (section 3.4.1.3.2)
  // =====================================================================

  /** name=value */
  function PairText(p: Pair): string
  {
    p.name + "=" + p.value
  }

  function PairTexts(ps: seq<Pair>): (r: seq<string>)
    ensures |r| == |ps|
  {
    seq(|ps|, i requires 0 <= i < |ps| => PairText(ps[i]))
  }

  /** The raw pairs gathered from the query (when present), the protocol parameters and the body. */
  function Collected(requestUri: Uri, oauthParams: Option<VariableMap>, requestBody: Option<VariableMap>,
                     parseForm: string -> VariableMap): seq<Pair>
  {
    (if requestUri.rawQuery.Some? then Occurrences(parseForm(requestUri.rawQuery.value).entries) else [])
    + (if oauthParams.Some? then Occurrences(oauthParams.value.entries) else [])
    + (if requestBody.Some? then Occurrences(requestBody.value.entries) else [])
  }

  /** The encoded pairs, sorted, joined as name=value with '&', and the whole encoded once more. */
  function NormalizedParameters(raw: seq<Pair>): string
  {
    PercentEncoded(Join(PairTexts(SortPairs(EncodeAll(raw))), '&'))
  }

  function EncodedParameters(requestUri: Uri, oauthParams: Option<VariableMap>, requestBody: Option<VariableMap>,
                             parseForm: string -> VariableMap): string
  {
    NormalizedParameters(Collected(requestUri, oauthParams, requestBody, parseForm))
  }

  /** One more pair text extends the '&'-joined texts by a separator and that text. */
  lemma JoinPairTextsStep(ps: seq<Pair>, i: nat)
    requires i < |ps|
    ensures Join(PairTexts(ps[..i + 1]), '&')
         == if i == 0 then PairText(ps[i]) else Join(PairTexts(ps[..i]), '&') + "&" + PairText(ps[i])
  {
    assert PairTexts(ps[..i + 1]) == PairTexts(ps[..i]) + [PairText(ps[i])];
    JoinSnoc(PairTexts(ps[..i]), PairText(ps[i]), '&');
  }

  /** Signer.encodeParameters(requestURI, oauthParams, requestBody, buf). */
  method EncodeParameters(requestUri: Uri, oauthParams: Option<VariableMap>, requestBody: Option<VariableMap>,
                          parseForm: string -> VariableMap, buf: string) returns (out: string)
    ensures out == buf + EncodedParameters(requestUri, oauthParams, requestBody, parseForm)
  {
    var encodedParameters: seq<Pair> := [];
    ghost var collected: seq<Pair> := [];
    if requestUri.rawQuery.Some? {
      var query := parseForm(requestUri.rawQuery.value);
      encodedParameters := EncodeParameterSet(query, encodedParameters);
      collected := Occurrences(query.entries);
    }
    assert encodedParameters == EncodeAll(collected);
    if oauthParams.Some? {
      encodedParameters := EncodeParameterSet(oauthParams.value, encodedParameters);
      EncodeAllAppend(collected, Occurrences(oauthParams.value.entries));
      collected := collected + Occurrences(oauthParams.value.entries);
    }
    if requestBody.Some? {
      encodedParameters := EncodeParameterSet(requestBody.value, encodedParameters);
      EncodeAllAppend(collected, Occurrences(requestBody.value.entries));
      collected := collected + Occurrences(requestBody.value.entries);
    }
    assert collected == Collected(requestUri, oauthParams, requestBody, parseForm);
    encodedParameters := SortPairs(encodedParameters);
    var temp := JoinPairs(encodedParameters);
    out := PercentEncode(temp, buf);
  }

  /** The join loop of encodeParameters: name=value texts separated by '&'. */
  method JoinPairs(encodedParameters: seq<Pair>) returns (temp: string)
    ensures temp == Join(PairTexts(encodedParameters), '&')
  {
    temp := "";
    var first := true;
    var i := 0;
    while i < |encodedParameters|
      invariant 0 <= i <= |encodedParameters|
      invariant first <==> i == 0
      invariant temp == Join(PairTexts(encodedParameters[..i]), '&')
    {
      if first {
        first := false;
      } else {
        temp := temp + "&";
      }
      // name, "=" and value, appended in turn
      temp := temp + PairText(encodedParameters[i]);
      JoinPairTextsStep(encodedParameters, i);
      i := i + 1;
    }
    assert encodedParameters[..i] == encodedParameters;
  }

  /**
   * The normalised parameters depend only on the multiset of raw pairs:
   * not on which source a pair came from, nor on the order of the maps.
   */
  lemma NormalizedDependsOnlyOnMultiset(a: seq<Pair>, b: seq<Pair>)
    requires multiset(a) == multiset(b)
    ensures NormalizedParameters(a) == NormalizedParameters(b)
  {
    EncodeAllMultiset(a, b);
    SortPairsSorted(EncodeAll(a));
    SortPairsSorted(EncodeAll(b));
    SortedUnique(SortPairs(EncodeAll(a)), SortPairs(EncodeAll(b)));
  }

  /** A parameter carried in the body signs exactly as one carried among the protocol parameters. */
  lemma ParameterSourceIrrelevant(requestUri: Uri, oauthParams: VariableMap, requestBody: VariableMap,
                                  parseForm: string -> VariableMap)
    ensures EncodedParameters(requestUri, Some(oauthParams), Some(requestBody), parseForm)
         == EncodedParameters(requestUri, Some(requestBody), Some(oauthParams), parseForm)
  {
    NormalizedDependsOnlyOnMultiset(Collected(requestUri, Some(oauthParams), Some(requestBody), parseForm),
                                    Collected(requestUri, Some(requestBody), Some(oauthParams), parseForm));
  }

  /**
   * Before the final encoding the parameter string is the sorted encoded
   * pairs joined by '&', each holding exactly one '=' between its name
   * and its value.
   */
  lemma NormalizedStructure(raw: seq<Pair>)
    requires |raw| > 0
    ensures var sorted := SortPairs(EncodeAll(raw));
      && Sorted(sorted) && multiset(sorted) == multiset(EncodeAll(raw))
      && Split(Join(PairTexts(sorted), '&'), '&') == PairTexts(sorted)
      && forall k :: 0 <= k < |sorted| ==> Split(PairTexts(sorted)[k], '=') == [sorted[k].name, sorted[k].value]
  {
    var sorted := SortPairs(EncodeAll(raw));
    SortPairsSorted(EncodeAll(raw));
    forall k | 0 <= k < |sorted|
      ensures '&' !in PairTexts(sorted)[k]
      ensures Split(PairTexts(sorted)[k], '=') == [sorted[k].name, sorted[k].value]
    {
      assert sorted[k] in multiset(EncodeAll(raw));
      var i :| 0 <= i < |raw| && EncodeAll(raw)[i] == sorted[k];
      EncodedPairText(raw[i]);
    }
    SplitJoin(PairTexts(sorted), '&');
  }

  /** An encoded pair's text holds no '&' and exactly one '=', between the name and the value. */
  lemma EncodedPairText(p: Pair)
    ensures '&' !in PairText(EncodePair(p))
    ensures Split(PairText(EncodePair(p)), '=') == [EncodePair(p).name, EncodePair(p).value]
  {
    var e := EncodePair(p);
    PercentEncodedAlphabet(p.name);
    PercentEncodedAlphabet(p.value);
    assert Join([e.name, e.value], '=') == PairText(e);
    SplitJoin([e.name, e.value], '=');
  }

  /** A pair spelt in unreserved characters is its own encoding. */
  lemma EncodePairUnreserved(p: Pair)
    requires forall i :: 0 <= i < |p.name| ==> Unreserved(p.name[i])
    requires forall i :: 0 <= i < |p.value| ==> Unreserved(p.value[i])
    ensures EncodePair(p) == p
  {
    PercentEncodedIdentity(p.name);
    PercentEncodedIdentity(p.value);
  }

  /** The worked example: {b:2, a:1, a:2} normalises to a=1&a=2&b=2 before the final encoding. */
  lemma NormalizedExample()
    ensures Join(PairTexts(SortPairs(EncodeAll([Pair("b", "2"), Pair("a", "1"), Pair("a", "2")]))), '&')
            == "a=1&a=2&b=2"
  {
    ExampleSorted();
    ExampleJoined();
  }

  lemma ExampleSorted()
    ensures SortPairs(EncodeAll([Pair("b", "2"), Pair("a", "1"), Pair("a", "2")]))
         == [Pair("a", "1"), Pair("a", "2"), Pair("b", "2")]
  {
    ExampleEncoded();
    ExampleOrdered();
    SortPairsIsTheSortedPermutation([Pair("b", "2"), Pair("a", "1"), Pair("a", "2")],
                                    [Pair("a", "1"), Pair("a", "2"), Pair("b", "2")]);
  }

  lemma ExampleEncoded()
    ensures EncodeAll([Pair("b", "2"), Pair("a", "1"), Pair("a", "2")])
         == [Pair("b", "2"), Pair("a", "1"), Pair("a", "2")]
  {
    var ps := [Pair("b", "2"), Pair("a", "1"), Pair("a", "2")];
    SingleCharPairUnreserved('b', '2');
    SingleCharPairUnreserved('a', '1');
    SingleCharPairUnreserved('a', '2');
    EncodeAllUnreserved(ps);
  }

  /** A pair of two unreserved characters is its own encoding. */
  lemma SingleCharPairUnreserved(a: char, b: char)
    requires Unreserved(a) && Unreserved(b)
    ensures EncodePair(Pair([a], [b])) == Pair([a], [b])
  {
    EncodePairUnreserved(Pair([a], [b]));
  }

  /** Pairs that are their own encodings are left alone by encoding them all. */
  lemma EncodeAllUnreserved(ps: seq<Pair>)
    requires forall k :: 0 <= k < |ps| ==> EncodePair(ps[k]) == ps[k]
    ensures EncodeAll(ps) == ps
  {
  }

  lemma ExampleOrdered()
    ensures Sorted([Pair("a", "1"), Pair("a", "2"), Pair("b", "2")])
  {
    assert CompareStrings("a", "a") == 0 && CompareStrings("1", "2") < 0 && CompareStrings("a", "b") < 0;
    assert PairLeq(Pair("a", "1"), Pair("a", "2"));
    assert PairLeq(Pair("a", "2"), Pair("b", "2"));
    assert PairLeq(Pair("a", "1"), Pair("b", "2"));
  }

  lemma ExampleJoined()
    ensures Join(PairTexts([Pair("a", "1"), Pair("a", "2"), Pair("b", "2")]), '&') == "a=1&a=2&b=2"
  {
    var texts := PairTexts([Pair("a", "1"), Pair("a", "2"), Pair("b", "2")]);
    assert PairText(Pair("a", "1")) == "a=1";
    assert PairText(Pair("a", "2")) == "a=2";
    assert PairText(Pair("b", "2")) == "b=2";
    assert texts == ["a=1", "a=2", "b=2"];
    JoinSnoc(["a=1"], "a=2", '&');
    JoinSnoc(["a=1", "a=2"], "b=2", '&');
    assert ["a=1"] + ["a=2"] == ["a=1", "a=2"];
    assert ["a=1", "a=2"] + ["b=2"] == texts;
  }

  // =====================================================================
  // Signature base string (section 3.4.1.1) and HMAC-SHA1 (section 3.4.2)
  // =====================================================================

  function SignatureBaseString(verb: string, requestUri: Uri, oauthParams: Option<VariableMap>,
                               requestBody: Option<VariableMap>, parseForm: string -> VariableMap): string
  {
    UpperAscii(verb) + "&" + BaseStringUri(requestUri) + "&"
      + EncodedParameters(requestUri, oauthParams, requestBody, parseForm)
  }

  /** Signer.signatureBase. */
  method SignatureBase(verb: string, requestUri: Uri, oauthParams: Option<VariableMap>,
                       requestBody: Option<VariableMap>, parseForm: string -> VariableMap) returns (base: string)
    ensures base == SignatureBaseString(verb, requestUri, oauthParams, requestBody, parseForm)
  {
    var buf := UpperAscii(verb);
    buf := buf + "&";
    buf := EncodeBaseStringUri(requestUri, buf);
    buf := buf + "&";
    buf := EncodeParameters(requestUri, oauthParams, requestBody, parseForm, buf);
    base := buf;
  }

  /** The encoded parameter string holds no '&'. */
  lemma EncodedParametersUnambiguous(requestUri: Uri, oauthParams: Option<VariableMap>,
                                     requestBody: Option<VariableMap>, parseForm: string -> VariableMap)
    ensures '&' !in EncodedParameters(requestUri, oauthParams, requestBody, parseForm)
  {
    var raw := Collected(requestUri, oauthParams, requestBody, parseForm);
    PercentEncodedAlphabet(Join(PairTexts(SortPairs(EncodeAll(raw))), '&'));
  }

  /**
   * For a method name without '&', the base string holds exactly two
   * '&': it splits into the upper-cased method, the encoded URI and the
   * encoded parameters.
   */
  lemma SignatureBaseStructure(verb: string, requestUri: Uri, oauthParams: Option<VariableMap>,
                               requestBody: Option<VariableMap>, parseForm: string -> VariableMap)
    requires '&' !in verb
    ensures Split(SignatureBaseString(verb, requestUri, oauthParams, requestBody, parseForm), '&')
         == [UpperAscii(verb), BaseStringUri(requestUri), EncodedParameters(requestUri, oauthParams, requestBody, parseForm)]
  {
    CaseMappingKeepsSeparator(verb, '&');
    BaseStringUriParts(requestUri);
    EncodedParametersUnambiguous(requestUri, oauthParams, requestBody, parseForm);
    SplitThree(UpperAscii(verb), BaseStringUri(requestUri),
               EncodedParameters(requestUri, oauthParams, requestBody, parseForm), '&');
  }

  /** The HMAC-SHA1 key: both secrets encoded, joined by '&'; a null secret counts as empty. */
  function SigningKey(clientSecret: Option<string>, tokenSecret: Option<string>): string
  {
    (if clientSecret.Some? then PercentEncoded(clientSecret.value) else "")
      + "&"
      + (if tokenSecret.Some? then PercentEncoded(tokenSecret.value) else "")
  }

  /**
   * The key splits at its one '&' into the two encoded secrets; without a
   * token secret it ends in '&', just as with an empty one.
   */
  lemma SigningKeyStructure(clientSecret: Option<string>, tokenSecret: Option<string>)
    ensures Split(SigningKey(clientSecret, tokenSecret), '&')
         == [PercentEncoded(OrEmpty(clientSecret)), PercentEncoded(OrEmpty(tokenSecret))]
    ensures tokenSecret == None ==> SigningKey(clientSecret, tokenSecret) == SigningKey(clientSecret, Some(""))
    ensures tokenSecret == None ==> SigningKey(clientSecret, tokenSecret)[|SigningKey(clientSecret, tokenSecret)| - 1] == '&'
  {
    var c, t := PercentEncoded(OrEmpty(clientSecret)), PercentEncoded(OrEmpty(tokenSecret));
    assert PercentEncoded("") == "";
    PercentEncodedAlphabet(OrEmpty(clientSecret));
    PercentEncodedAlphabet(OrEmpty(tokenSecret));
    assert SigningKey(clientSecret, tokenSecret) == Join([c, t], '&');
    SplitJoin([c, t], '&');
  }

  /** Signer.signHMAC_SHA1: the library digest of the base string under the signing key. */
  method SignHmacSha1(base: string, clientSecret: Option<string>, tokenSecret: Option<string>,
                      hmacSha1: (string, string) -> string) returns (signature: string)
    ensures signature == hmacSha1(SigningKey(clientSecret, tokenSecret), base)
  {
    var key := "";
    if clientSecret.Some? {
      key := PercentEncode(clientSecret.value, key);
    }
    ghost var clientPart := key;
    assert clientPart == if clientSecret.Some? then PercentEncoded(clientSecret.value) else "";
    key := key + "&";
    if tokenSecret.Some? {
      key := PercentEncode(tokenSecret.value, key);
    }
    assert key == clientPart + "&" + (if tokenSecret.Some? then PercentEncoded(tokenSecret.value) else "");
    signature := hmacSha1(key, base);
  }
}
