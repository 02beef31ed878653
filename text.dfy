/** Strings as the image provider builds and takes apart element ids:
    decimal numbers (QString::number), numbered element ids such as
    `background_3`, prefix tests and QString::split with empty parts kept. */
module Text {

  /** The decimal digit character of `d`. */
  function Digit(d: nat): (c: char)
    requires d < 10
    ensures '0' <= c <= '9'
    ensures c as int - '0' as int == d
  {
    (d + '0' as int) as char
  }

  /** Decimal representation of a natural number, without leading zeros. */
  function NatString(n: nat): (s: string)
    ensures |s| >= 1
    ensures n < 10 <==> |s| == 1
    ensures forall i :: 0 <= i < |s| ==> '0' <= s[i] <= '9'
    decreases n
  {
    if n < 10 then [Digit(n)] else NatString(n / 10) + [Digit(n % 10)]
  }

  /** Decimal representation of an integer, with a leading '-' when negative. */
  function IntString(n: int): (s: string)
    ensures n >= 0 ==> s == NatString(n)
    ensures n < 0 ==> s == "-" + NatString(-n)
  {
    if n >= 0 then NatString(n) else "-" + NatString(-n)
  }

  /** The id of the `n`-th variation of an element: `base_n`. */
  function Numbered(base: string, n: int): (id: string)
    ensures |id| > |base| + 1
    ensures id[..|base|] == base && id[|base|] == '_' && id[|base| + 1..] == IntString(n)
  {
    base + "_" + IntString(n)
  }

  /** Different numbers give different decimal strings. */
  lemma {:induction false} NatStringInjective(a: nat, b: nat)
    requires NatString(a) == NatString(b)
    ensures a == b
    decreases a
  {
    var s := NatString(a);
    if a < 10 {
      assert s == [Digit(a)] && s == [Digit(b)];
    } else {
      assert b >= 10;
      assert NatString(a) == NatString(a / 10) + [Digit(a % 10)];
      assert NatString(b) == NatString(b / 10) + [Digit(b % 10)];
      assert Digit(a % 10) == s[|s| - 1] == Digit(b % 10);
      assert NatString(a / 10) == s[..|s| - 1] == NatString(b / 10);
      NatStringInjective(a / 10, b / 10);
    }
  }

  /** Distinct numbers give distinct ids on the same base, so the
      variations `base_1`, `base_2`, ... of one element never collide. */
  lemma NumberedInjective(base: string, a: nat, b: nat)
    requires Numbered(base, a) == Numbered(base, b)
    ensures a == b
  {
    assert NatString(a) == Numbered(base, a)[|base| + 1..] == NatString(b);
    NatStringInjective(a, b);
  }

  /** QString::startsWith (case-sensitive). */
  predicate StartsWith(s: string, prefix: string)
  {
    prefix <= s
  }

  /** QString::split(sep) with empty parts kept: one part more than there
      are separators, and no part contains the separator. */
  function Split(s: string, sep: char): (parts: seq<string>)
    ensures |parts| == Count(s, sep) + 1
    ensures forall i :: 0 <= i < |parts| ==> sep !in parts[i]
    decreases |s|
  {
    if s == [] then [[]]
    else
      var rest := Split(s[1..], sep);
      if s[0] == sep then [[]] + rest
      else [[s[0]] + rest[0]] + rest[1..]
  }

  /** Number of occurrences of `c` in `s`. */
  function Count(s: string, c: char): nat
    decreases |s|
  {
    if s == [] then 0 else (if s[0] == c then 1 else 0) + Count(s[1..], c)
  }

  /** The parts joined back together with the separator between them. */
  function Join(parts: seq<string>, sep: char): string
    requires |parts| >= 1
    decreases |parts|
  {
    if |parts| == 1 then parts[0] else parts[0] + [sep] + Join(parts[1..], sep)
  }

  /** Splitting loses nothing: joining the parts gives the id back. */
  lemma {:induction false} JoinSplit(s: string, sep: char)
    ensures Join(Split(s, sep), sep) == s
    decreases |s|
  {
    if s != [] {
      var rest := Split(s[1..], sep);
      JoinSplit(s[1..], sep);
      if s[0] == sep {
        assert Split(s, sep) == [[]] + rest;
        assert Join([[]] + rest, sep) == [] + [sep] + Join(rest, sep);
      } else if |rest| == 1 {
        assert Split(s, sep) == [[s[0]] + rest[0]];
      } else {
        var parts := Split(s, sep);
        assert parts == [[s[0]] + rest[0]] + rest[1..];
        assert parts[1..] == rest[1..];
        assert Join(parts, sep) == [s[0]] + (rest[0] + [sep] + Join(rest[1..], sep));
        assert Join(rest, sep) == rest[0] + [sep] + Join(rest[1..], sep);
      }
    }
  }

  /** A string without the separator splits into itself. */
  lemma {:induction false} SplitWithoutSeparator(p: string, sep: char)
    requires sep !in p
    ensures Split(p, sep) == [p]
    decreases |p|
  {
    if p != [] {
      SplitWithoutSeparator(p[1..], sep);
      assert [p[0]] + p[1..] == p;
    }
  }

  /** A separator-free part followed by the separator splits off as one part. */
  lemma {:induction false} SplitAfterPart(p: string, sep: char, t: string)
    requires sep !in p
    ensures Split(p + [sep] + t, sep) == [p] + Split(t, sep)
    decreases |p|
  {
    var s := p + [sep] + t;
    if p == [] {
      assert s[1..] == t;
    } else {
      assert s[1..] == p[1..] + [sep] + t;
      SplitAfterPart(p[1..], sep, t);
      assert [p[0]] + p[1..] == p;
    }
  }

  /** Splitting undoes joining parts that hold no separator. */
  lemma {:induction false} SplitJoin(parts: seq<string>, sep: char)
    requires |parts| >= 1
    requires forall i :: 0 <= i < |parts| ==> sep !in parts[i]
    ensures Split(Join(parts, sep), sep) == parts
    decreases |parts|
  {
    if |parts| == 1 {
      SplitWithoutSeparator(parts[0], sep);
    } else {
      SplitJoin(parts[1..], sep);
      SplitAfterPart(parts[0], sep, Join(parts[1..], sep));
      assert [parts[0]] + parts[1..] == parts;
    }
  }

  /** QString::split(sep, QString::SkipEmptyParts): the non-empty parts, in order. */
  function SkipEmptyParts(parts: seq<string>): (r: seq<string>)
    ensures forall i :: 0 <= i < |r| ==> r[i] != []
    ensures forall p :: p in r <==> p in parts && p != []
    decreases |parts|
  {
    if parts == [] then []
    else (if parts[0] == [] then [] else [parts[0]]) + SkipEmptyParts(parts[1..])
  }

  /** Parts with no empty part are kept whole. */
  lemma {:induction false} SkipEmptyPartsKeepsNonEmpty(parts: seq<string>)
    requires forall i :: 0 <= i < |parts| ==> parts[i] != []
    ensures SkipEmptyParts(parts) == parts
    decreases |parts|
  {
    if parts != [] {
      SkipEmptyPartsKeepsNonEmpty(parts[1..]);
      assert [parts[0]] + parts[1..] == parts;
    }
  }

  /** Skipping works part by part: the parts kept from two lists in a row
      are those kept from the first followed by those kept from the second,
      so order and repeated parts are kept. */
  lemma {:induction false} SkipEmptyPartsAppend(a: seq<string>, b: seq<string>)
    ensures SkipEmptyParts(a + b) == SkipEmptyParts(a) + SkipEmptyParts(b)
    decreases |a|
  {
    if a != [] {
      assert (a + b)[1..] == a[1..] + b;
      SkipEmptyPartsAppend(a[1..], b);
    } else {
      assert a + b == b;
    }
  }

  /** A character other than the separator that no part holds is not in the join. */
  lemma {:induction false} JoinAvoids(parts: seq<string>, sep: char, c: char)
    requires |parts| >= 1 && c != sep
    requires forall i :: 0 <= i < |parts| ==> c !in parts[i]
    ensures c !in Join(parts, sep)
    decreases |parts|
  {
    if |parts| > 1 {
      JoinAvoids(parts[1..], sep, c);
    }
  }

  /** A decimal number is made of digits and a leading minus sign only. */
  lemma IntStringAvoids(n: int, c: char)
    requires c != '-' && !('0' <= c <= '9')
    ensures c !in IntString(n)
  {
    if n < 0 {
      assert IntString(n) == "-" + NatString(-n);
      assert c !in NatString(-n);
    }
  }
}
