/**
 * Small value types and text helpers shared by the signer and both
 * session variants: Java's nullable references as Option, thrown
 * exceptions as Result, separator joining and splitting, ASCII case
 * mapping and decimal rendering.
 */
module Base {

  /** A Java reference that may be null. */
  datatype Option<+T> = None | Some(value: T)

  /** A call that returns normally (Success) or throws (Failure). */
  datatype Result<+T, +E> = Success(value: T) | Failure(error: E)

  /** The text Java's string concatenation produces for a nullable string. */
  function OrNullText(s: Option<string>): string
  {
    if s.Some? then s.value else "null"
  }

  /** The text of a nullable string, with null standing for "". */
  function OrEmpty(s: Option<string>): string
  {
    if s.Some? then s.value else ""
  }

  /** Concatenation is associative (stated once, so callers need not unfold their operands). */
  lemma AppendAssociative<T>(a: seq<T>, b: seq<T>, c: seq<T>)
    ensures (a + b) + c == a + (b + c)
  {
  }

  /** Three single appends are one append of the three elements. */
  lemma AppendThree<T>(xs: seq<T>, a: T, b: T, c: T)
    ensures xs + [a] + [b] + [c] == xs + [a, b, c]
  {
    assert xs + [a] + [b] + [c] == xs + ([a] + [b] + [c]);
  }

  /** The images of the elements under f, concatenated in order. */
  function FlatMap<T, U>(xs: seq<T>, f: T -> seq<U>): seq<U>
  {
    if xs == [] then [] else FlatMap(xs[..|xs| - 1], f) + f(xs[|xs| - 1])
  }

  lemma FlatMapSingle<T, U>(x: T, f: T -> seq<U>)
    ensures FlatMap([x], f) == f(x)
  {
    assert [x][..0] == [];
  }

  lemma FlatMapPrefix<T, U>(xs: seq<T>, i: nat, f: T -> seq<U>)
    requires i < |xs|
    ensures FlatMap(xs[..i + 1], f) == FlatMap(xs[..i], f) + f(xs[i])
  {
    assert xs[..i + 1][..i] == xs[..i];
  }

  /** FlatMap distributes over concatenation. */
  lemma {:induction false} FlatMapAppend<T, U>(xs: seq<T>, ys: seq<T>, f: T -> seq<U>)
    ensures FlatMap(xs + ys, f) == FlatMap(xs, f) + FlatMap(ys, f)
    decreases |ys|
  {
    if ys == [] {
      assert xs + ys == xs;
    } else {
      var init := ys[..|ys| - 1];
      assert (xs + ys)[..|xs + ys| - 1] == xs + init;
      FlatMapAppend(xs, init, f);
      AppendAssociative(FlatMap(xs, f), FlatMap(init, f), f(ys[|ys| - 1]));
    }
  }

  // ---------------------------------------------------------------------
  // Joining with a separator and splitting at it
  // ---------------------------------------------------------------------

  /** xs[0] + sep + xs[1] + sep + ... ; the empty list gives "". */
  function Join(xs: seq<string>, sep: char): string
  {
    if |xs| == 0 then ""
    else if |xs| == 1 then xs[0]
    else xs[0] + [sep] + Join(xs[1..], sep)
  }

  /** Appending one more piece adds exactly one separator. */
  lemma {:induction false} JoinSnoc(xs: seq<string>, x: string, sep: char)
    ensures Join(xs + [x], sep) == if xs == [] then x else Join(xs, sep) + [sep] + x
  {
    if |xs| == 0 {
      assert xs + [x] == [x];
    } else if |xs| == 1 {
      assert (xs + [x])[1..] == [x];
    } else {
      assert (xs + [x])[1..] == xs[1..] + [x];
      JoinSnoc(xs[1..], x, sep);
    }
  }

  /** Extending a joined text by one piece, behind a fixed prefix. */
  lemma JoinExtend(prefix: string, done: seq<string>, x: string, sep: char)
    ensures prefix + Join(done + [x], sep)
         == if done == [] then prefix + x else prefix + Join(done, sep) + [sep] + x
  {
    JoinSnoc(done, x, sep);
    if done != [] {
      AppendAssociative(prefix, Join(done, sep) + [sep], x);
      AppendAssociative(prefix, Join(done, sep), [sep]);
    }
  }

  /** One more piece joined behind a fixed head: a separator first unless nothing was joined yet. */
  lemma JoinPrefixStep(head: string, xs: seq<string>, ys: seq<string>, i: nat, sep: char)
    requires i < |ys|
    ensures head + Join(xs + ys[..i + 1], sep)
         == (if |xs| + i == 0 then head else head + Join(xs + ys[..i], sep) + [sep]) + ys[i]
  {
    TakeSnoc(xs, ys, i);
    JoinExtend(head, xs + ys[..i], ys[i], sep);
  }

  /** A prefix one element longer ends in that element. */
  lemma TakeSnoc<T>(xs: seq<T>, ys: seq<T>, i: nat)
    requires i < |ys|
    ensures xs + ys[..i + 1] == xs + ys[..i] + [ys[i]]
  {
    assert ys[..i + 1] == ys[..i] + [ys[i]];
  }

  /** The position of the first occurrence of x in s. */
  function IndexOf<T(==)>(s: seq<T>, x: T): (i: nat)
    requires x in s
    ensures i < |s| && s[i] == x && x !in s[..i]
  {
    if s[0] == x then 0
    else
      assert x in s[1..] by {
        var k :| 0 <= k < |s| && s[k] == x;
        assert s[1..][k - 1] == x;
      }
      var j := IndexOf(s[1..], x);
      assert s[..j + 1] == [s[0]] + s[1..][..j];
      j + 1
  }

  /** The pieces of s between occurrences of sep (always at least one piece). */
  function Split(s: string, sep: char): (r: seq<string>)
    ensures |r| > 0
    decreases |s|
  {
    if sep in s then
      var i := IndexOf(s, sep);
      [s[..i]] + Split(s[i + 1..], sep)
    else [s]
  }

  /** Splitting x + sep + y, where x holds no separator, peels off x. */
  lemma SplitFirst(x: string, y: string, sep: char)
    requires sep !in x
    ensures Split(x + [sep] + y, sep) == [x] + Split(y, sep)
  {
    var s := x + [sep] + y;
    assert s[|x|] == sep;
    var i := IndexOf(s, sep);
    assert sep !in s[..i];
    assert i == |x|;
    assert s[..i] == x;
    assert s[i + 1..] == y;
  }

  /** Two separators between three separator-free pieces split back into those pieces. */
  lemma SplitThree(x: string, y: string, z: string, sep: char)
    requires sep !in x && sep !in y && sep !in z
    ensures Split(x + [sep] + y + [sep] + z, sep) == [x, y, z]
  {
    var rest := y + [sep] + z;
    SplitFirst(y, z, sep);
    assert Split(z, sep) == [z];
    assert Split(rest, sep) == [y, z];
    var front := x + [sep];
    AppendAssociative(front + y, [sep], z);
    AppendAssociative(front, y, [sep] + z);
    AppendAssociative(y, [sep], z);
    assert x + [sep] + y + [sep] + z == front + rest;
    SplitFirst(x, rest, sep);
  }

  /**
   * Splitting undoes joining whenever no piece contains the separator:
   * the separator structure of a joined string is exact.
   */
  lemma {:induction false} SplitJoin(xs: seq<string>, sep: char)
    requires |xs| > 0
    requires forall k :: 0 <= k < |xs| ==> sep !in xs[k]
    ensures Split(Join(xs, sep), sep) == xs
  {
    if |xs| == 1 {
      assert sep !in xs[0];
    } else {
      assert sep !in xs[0];
      SplitFirst(xs[0], Join(xs[1..], sep), sep);
      SplitJoin(xs[1..], sep);
      assert xs == [xs[0]] + xs[1..];
    }
  }

  // ---------------------------------------------------------------------
  // ASCII case mapping and hex digits
  // ---------------------------------------------------------------------

  function UpperChar(c: char): char
  {
    if 'a' <= c <= 'z' then (c as int - 32) as char else c
  }

  function LowerChar(c: char): char
  {
    if 'A' <= c <= 'Z' then (c as int + 32) as char else c
  }

  /** String.toUpperCase, for the ASCII letters. */
  function UpperAscii(s: string): (r: string)
    ensures |r| == |s|
    ensures forall i :: 0 <= i < |s| ==> r[i] == UpperChar(s[i])
  {
    seq(|s|, i requires 0 <= i < |s| => UpperChar(s[i]))
  }

  /** String.toLowerCase, for the ASCII letters. */
  function LowerAscii(s: string): (r: string)
    ensures |r| == |s|
    ensures forall i :: 0 <= i < |s| ==> r[i] == LowerChar(s[i])
  {
    seq(|s|, i requires 0 <= i < |s| => LowerChar(s[i]))
  }

  /** Case mapping only moves letters, so it never creates or removes a separator. */
  lemma CaseMappingKeepsSeparator(s: string, sep: char)
    requires !('a' <= sep <= 'z') && !('A' <= sep <= 'Z')
    ensures sep in UpperAscii(s) <==> sep in s
    ensures sep in LowerAscii(s) <==> sep in s
  {
    if sep in UpperAscii(s) {
      var k :| 0 <= k < |s| && UpperAscii(s)[k] == sep;
      assert s[k] == sep;
    }
    if sep in LowerAscii(s) {
      var k :| 0 <= k < |s| && LowerAscii(s)[k] == sep;
      assert s[k] == sep;
    }
    if sep in s {
      var k :| 0 <= k < |s| && s[k] == sep;
      assert UpperAscii(s)[k] == sep && LowerAscii(s)[k] == sep;
    }
  }

  /** Integer.toHexString's digits: lower-case. */
  function LowerHexDigit(d: nat): char
    requires d < 16
  {
    if d < 10 then ('0' as int + d) as char else ('a' as int + d - 10) as char
  }

  /** An upper-case hexadecimal digit. */
  function UpperHexDigit(d: nat): (c: char)
    requires d < 16
    ensures IsUpperHexDigit(c)
  {
    if d < 10 then ('0' as int + d) as char else ('A' as int + d - 10) as char
  }

  predicate IsUpperHexDigit(c: char)
  {
    '0' <= c <= '9' || 'A' <= c <= 'F'
  }

  /** The value a string of decimal digits denotes, most significant digit first. */
  function DigitsValue(s: string): nat
    requires forall i :: 0 <= i < |s| ==> '0' <= s[i] <= '9'
  {
    if |s| == 0 then 0
    else DigitsValue(s[..|s| - 1]) * 10 + (s[|s| - 1] as int - '0' as int)
  }

  /**
   * Long.toString for a non-negative value: the digits denote the value,
   * with no leading zero except for the value zero itself.
   */
  function Decimal(n: nat): (r: string)
    ensures |r| > 0
    ensures forall i :: 0 <= i < |r| ==> '0' <= r[i] <= '9'
    ensures DigitsValue(r) == n
    ensures |r| > 1 ==> r[0] != '0'
  {
    if n < 10 then ["0123456789"[n]]
    else
      var prefix := Decimal(n / 10);
      var r := prefix + ["0123456789"[n % 10]];
      assert r[..|r| - 1] == prefix;
      r
  }
}
