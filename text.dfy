/**
 * String helpers used by the backend: `str::split` on a separator,
 * `join`, lower-case `hex::encode` and the decimal rendering of integers.
 * Each comes with the lemma that ties it to its inverse.
 */
module Text {

  newtype byte = x: int | 0 <= x < 256

  // ---------------------------------------------------------------------------
  // join

  /** `parts.join(sep)`: the parts with `sep` between neighbours. */
  function Join(parts: seq<string>, sep: string): string
  {
    if |parts| == 0 then ""
    else if |parts| == 1 then parts[0]
    else parts[0] + sep + Join(parts[1..], sep)
  }

  // ---------------------------------------------------------------------------
  // split

  /** `sep` occurs in `s` starting at index `i`. */
  predicate OccursAt(s: string, sep: string, i: nat)
  {
    i + |sep| <= |s| && s[i..i + |sep|] == sep
  }

  predicate Contains(s: string, sep: string)
  {
    exists i: nat | i <= |s| :: OccursAt(s, sep, i)
  }

  /**
   * `s.split(sep)` as Rust computes it: matches are found left to right and
   * do not overlap; the text between them is returned, so there is always
   * at least one segment.
   */
  function Split(s: string, sep: string): (r: seq<string>)
    requires |sep| > 0
    ensures |r| >= 1
    decreases |s|
  {
    if |s| < |sep| then [s]
    else if s[..|sep|] == sep then [""] + Split(s[|sep|..], sep)
    else
      var rest := Split(s[1..], sep);
      [[s[0]] + rest[0]] + rest[1..]
  }

  /** Joining a head part onto at least one more part puts the separator between. */
  lemma JoinCons(p: string, rest: seq<string>, sep: string)
    requires |rest| >= 1
    ensures Join([p] + rest, sep) == p + sep + Join(rest, sep)
  {
    assert ([p] + rest)[1..] == rest;
  }

  /** The last part of a join follows the join of the others and one separator. */
  lemma {:induction false} JoinSnoc(parts: seq<string>, sep: string)
    requires |parts| >= 2
    ensures Join(parts, sep) == Join(parts[..|parts| - 1], sep) + sep + parts[|parts| - 1]
    decreases |parts|
  {
    if |parts| > 2 {
      var tail := parts[1..];
      JoinSnoc(tail, sep);
      assert tail[..|tail| - 1] == parts[..|parts| - 1][1..];
      assert tail[|tail| - 1] == parts[|parts| - 1];
    } else {
      assert parts[..1] == [parts[0]];
      assert parts[1..] == [parts[1]];
    }
  }

  /** A character put in front of the first part comes out in front of the join. */
  lemma JoinPrepend(c: char, w: string, rest: seq<string>, sep: string)
    ensures Join([[c] + w] + rest, sep) == [c] + Join([w] + rest, sep)
  {
    if |rest| == 0 {
      assert [w] + rest == [w];
      assert [[c] + w] + rest == [[c] + w];
    } else {
      JoinCons([c] + w, rest, sep);
      JoinCons(w, rest, sep);
      assert [c] + w + sep + Join(rest, sep) == [c] + (w + sep + Join(rest, sep));
    }
  }

  /** `Split` on a text that starts with the separator. */
  lemma SplitAtSep(s: string, sep: string)
    requires 0 < |sep| <= |s| && s[..|sep|] == sep
    ensures Split(s, sep) == [""] + Split(s[|sep|..], sep)
  {
  }

  /** `Split` on a text that does not start with the separator. */
  lemma SplitAtOther(s: string, sep: string)
    requires 0 < |sep| <= |s| && s[..|sep|] != sep
    ensures var rest := Split(s[1..], sep); Split(s, sep) == [[s[0]] + rest[0]] + rest[1..]
  {
  }

  /** Joining the segments of a split with the same separator gives the text back. */
  lemma {:induction false} JoinSplit(s: string, sep: string)
    requires |sep| > 0
    ensures Join(Split(s, sep), sep) == s
    decreases |s|
  {
    if |s| < |sep| {
    } else if s[..|sep|] == sep {
      var rest := Split(s[|sep|..], sep);
      JoinSplit(s[|sep|..], sep);
      SplitAtSep(s, sep);
      JoinCons("", rest, sep);
      assert s == s[..|sep|] + s[|sep|..];
    } else {
      var rest := Split(s[1..], sep);
      JoinSplit(s[1..], sep);
      SplitAtOther(s, sep);
      assert [rest[0]] + rest[1..] == rest;
      JoinPrepend(s[0], rest[0], rest[1..], sep);
      assert s == [s[0]] + s[1..];
    }
  }

  /** The first segment of a split is a prefix of the text. */
  lemma {:induction false} SplitHeadIsPrefix(s: string, sep: string)
    requires |sep| > 0
    ensures |Split(s, sep)[0]| <= |s| && Split(s, sep)[0] == s[..|Split(s, sep)[0]|]
    decreases |s|
  {
    if |s| < |sep| {
    } else if s[..|sep|] == sep {
      SplitAtSep(s, sep);
    } else {
      var w := Split(s[1..], sep)[0];
      SplitHeadIsPrefix(s[1..], sep);
      SplitAtOther(s, sep);
      PrefixCons(s, w);
    }
  }

  /** A prefix of the tail, with the first character in front, is a prefix of the text. */
  lemma PrefixCons(s: string, w: string)
    requires 0 < |s| && |w| <= |s| - 1 && w == s[1..][..|w|]
    ensures [s[0]] + w == s[..|w| + 1]
  {
  }

  /** A first segment that does not start with the separator stays free of it with one more character. */
  lemma HeadFree(s: string, sep: string, w: string)
    requires |sep| > 0 && |s| >= |sep| && s[..|sep|] != sep
    requires |w| <= |s| - 1 && w == s[1..][..|w|]
    requires !Contains(w, sep)
    ensures !Contains([s[0]] + w, sep)
  {
    var head := [s[0]] + w;
    assert head == s[..|head|];
    forall i: nat | OccursAt(head, sep, i) ensures false {
      if i > 0 {
        assert w[i - 1..i - 1 + |sep|] == head[i..i + |sep|];
        assert OccursAt(w, sep, i - 1);
      }
    }
  }

  /** No segment of a split contains the separator. */
  lemma {:induction false} SplitSegmentsFree(s: string, sep: string)
    requires |sep| > 0
    ensures forall k :: 0 <= k < |Split(s, sep)| ==> !Contains(Split(s, sep)[k], sep)
    decreases |s|
  {
    var r := Split(s, sep);
    if |s| < |sep| {
      forall i: nat | OccursAt(s, sep, i) ensures false { }
    } else if s[..|sep|] == sep {
      var rest := Split(s[|sep|..], sep);
      SplitSegmentsFree(s[|sep|..], sep);
      forall k | 0 <= k < |r| ensures !Contains(r[k], sep) {
        if k == 0 {
          forall i: nat | OccursAt(r[k], sep, i) ensures false { }
        } else {
          assert r[k] == rest[k - 1];
        }
      }
    } else {
      var rest := Split(s[1..], sep);
      SplitSegmentsFree(s[1..], sep);
      SplitHeadIsPrefix(s[1..], sep);
      assert !Contains(rest[0], sep);
      HeadFree(s, sep, rest[0]);
      assert r == [[s[0]] + rest[0]] + rest[1..];
      forall k | 0 <= k < |r| ensures !Contains(r[k], sep) {
        if k > 0 {
          assert r[k] == rest[k];
        }
      }
    }
  }

  /** Splitting a text without the separator character gives the text alone. */
  lemma {:induction false} SplitWithout(x: string, c: char)
    requires c !in x
    ensures Split(x, [c]) == [x]
    decreases |x|
  {
    if |x| >= 1 {
      assert x[..1] == [x[0]];
      SplitWithout(x[1..], c);
      assert [x[0]] + x[1..] == x;
    }
  }

  /** Splitting `x + [c] + y` at `c`, where `x` has no `c`, peels `x` off. */
  lemma {:induction false} SplitAfter(x: string, c: char, y: string)
    requires c !in x
    ensures Split(x + [c] + y, [c]) == [x] + Split(y, [c])
    decreases |x|
  {
    var s := x + [c] + y;
    if |x| == 0 {
      assert s[..1] == [c];
      assert s[1..] == y;
    } else {
      assert s[..1] == [x[0]];
      assert s[1..] == x[1..] + [c] + y;
      SplitAfter(x[1..], c, y);
      assert [x[0]] + x[1..] == x;
    }
  }

  /** For a one-character separator absent from every part, split undoes join. */
  lemma {:induction false} SplitJoin(parts: seq<string>, c: char)
    requires |parts| >= 1
    requires forall k :: 0 <= k < |parts| ==> c !in parts[k]
    ensures Split(Join(parts, [c]), [c]) == parts
    decreases |parts|
  {
    if |parts| == 1 {
      SplitWithout(parts[0], c);
    } else {
      SplitJoin(parts[1..], c);
      SplitAfter(parts[0], c, Join(parts[1..], [c]));
      assert [parts[0]] + parts[1..] == parts;
    }
  }

  // ---------------------------------------------------------------------------
  // hex::encode

  function HexDigit(n: nat): char
    requires n < 16
  {
    "0123456789abcdef"[n]
  }

  function DigitValue(c: char): (v: nat)
    ensures v < 16
  {
    if '0' <= c <= '9' then c as int - '0' as int
    else if 'a' <= c <= 'f' then c as int - 'a' as int + 10
    else 0
  }

  /** `hex::encode`: two lower-case hex digits per byte, high nibble first. */
  function Hex(bytes: seq<byte>): (r: string)
    ensures |r| == 2 * |bytes|
  {
    if |bytes| == 0 then ""
    else [HexDigit(bytes[0] as int / 16), HexDigit(bytes[0] as int % 16)] + Hex(bytes[1..])
  }

  /** The inverse of `Hex`; a trailing odd digit is dropped. */
  function Unhex(s: string): seq<byte>
  {
    if |s| < 2 then []
    else [(DigitValue(s[0]) * 16 + DigitValue(s[1])) as byte] + Unhex(s[2..])
  }

  lemma DigitValueHexDigit(n: nat)
    requires n < 16
    ensures DigitValue(HexDigit(n)) == n
  {
  }

  lemma UnhexCons(x: char, y: char, rest: string)
    ensures Unhex([x, y] + rest) == [(DigitValue(x) * 16 + DigitValue(y)) as byte] + Unhex(rest)
  {
    var s := [x, y] + rest;
    assert s[0] == x && s[1] == y && s[2..] == rest;
  }

  lemma {:induction false} UnhexHex(bytes: seq<byte>)
    ensures Unhex(Hex(bytes)) == bytes
  {
    if |bytes| > 0 {
      var b := bytes[0] as int;
      var tail := Hex(bytes[1..]);
      var hi, lo := b / 16, b % 16;
      assert Hex(bytes) == [HexDigit(hi), HexDigit(lo)] + tail;
      DigitValueHexDigit(hi);
      DigitValueHexDigit(lo);
      UnhexCons(HexDigit(hi), HexDigit(lo), tail);
      assert hi * 16 + lo == b;
      UnhexHex(bytes[1..]);
      assert [bytes[0]] + bytes[1..] == bytes;
    }
  }

  /** Distinct raw ids have distinct hex renderings. */
  lemma HexInjective(a: seq<byte>, b: seq<byte>)
    ensures Hex(a) == Hex(b) <==> a == b
  {
    if Hex(a) == Hex(b) {
      UnhexHex(a);
      UnhexHex(b);
    }
  }

  // ---------------------------------------------------------------------------
  // integer to_string

  function Digit(n: nat): char
    requires n < 10
  {
    "0123456789"[n]
  }

  /** Decimal digits of `n`, most significant first, without leading zeros. */
  function NatToString(n: nat): (r: string)
    ensures |r| >= 1 && '0' <= r[0] <= '9'
  {
    if n < 10 then [Digit(n)] else NatToString(n / 10) + [Digit(n % 10)]
  }

  /** `i64::to_string`: a minus sign for negative values, then the digits. */
  function IntToString(i: int): string
  {
    if i < 0 then "-" + NatToString(-i) else NatToString(i)
  }

  function ParseNat(s: string): nat
  {
    if |s| == 0 then 0 else ParseNat(s[..|s| - 1]) * 10 + DigitValue(s[|s| - 1])
  }

  function ParseInt(s: string): int
  {
    if |s| > 0 && s[0] == '-' then 0 - ParseNat(s[1..]) as int else ParseNat(s)
  }

  lemma {:induction false} ParseNatToString(n: nat)
    ensures ParseNat(NatToString(n)) == n
  {
    if n >= 10 {
      var s := NatToString(n);
      assert s[..|s| - 1] == NatToString(n / 10);
      ParseNatToString(n / 10);
    }
  }

  lemma NegativeParse(s: string)
    requires |s| >= 1 && '0' <= s[0] <= '9'
    ensures ParseInt("-" + s) == 0 - ParseNat(s) as int && ParseInt(s) == ParseNat(s)
  {
    assert ("-" + s)[0] == '-';
    assert ("-" + s)[1..] == s;
  }

  /** The decimal rendering of an integer reads back as that integer. */
  lemma ParseIntToString(i: int)
    ensures ParseInt(IntToString(i)) == i
  {
    if i < 0 {
      var n: nat := -i;
      var d := NatToString(n);
      assert IntToString(i) == "-" + d;
      ParseNatToString(n);
      NegativeParse(d);
    } else {
      var d := NatToString(i);
      assert IntToString(i) == d;
      ParseNatToString(i);
      NegativeParse(d);
    }
  }
}
