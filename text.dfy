/**
 * Text-level building blocks of the token encoding: escaping of reserved
 * characters, canonical decimal integers, and splitting on a separator.
 * Each encoder comes with both round-trip lemmas, so decoding is exactly
 * the inverse of encoding on the encoder's image.
 */
module Text {
  import opened Wrappers

  // ---------------------------------------------------------------------------
  // Escaping: '%', '.' and ',' never appear raw in an escaped string.
  // ---------------------------------------------------------------------------

  function EscapeChar(c: char): string
  {
    if c == '%' then "%25"
    else if c == '.' then "%2E"
    else if c == ',' then "%2C"
    else [c]
  }

  /** Escaped text contains neither separator. */
  function Escape(s: string): (r: string)
    ensures '.' !in r && ',' !in r
    decreases |s|
  {
    if s == [] then [] else EscapeChar(s[0]) + Escape(s[1..])
  }

  function Cons(c: char, o: Option<string>): Option<string>
  {
    match o
    case None => None
    case Some(t) => Some([c] + t)
  }

  /** Inverse of Escape; None for a raw separator or an unknown escape. */
  function Unescape(s: string): Option<string>
    decreases |s|
  {
    if s == [] then Some([])
    else if s[0] == '%' then
      if |s| < 3 then None
      else if s[1..3] == "25" then Cons('%', Unescape(s[3..]))
      else if s[1..3] == "2E" then Cons('.', Unescape(s[3..]))
      else if s[1..3] == "2C" then Cons(',', Unescape(s[3..]))
      else None
    else if s[0] == '.' || s[0] == ',' then None
    else Cons(s[0], Unescape(s[1..]))
  }

  lemma {:induction false} UnescapeEscape(s: string)
    ensures Unescape(Escape(s)) == Some(s)
    decreases |s|
  {
    if s != [] {
      var c, rest := s[0], Escape(s[1..]);
      var e := Escape(s);
      assert e == EscapeChar(c) + rest;
      UnescapeEscape(s[1..]);
      if c == '%' || c == '.' || c == ',' {
        assert e[1..3] == EscapeChar(c)[1..3] && e[3..] == rest;
      } else {
        assert e[0] == c && e[1..] == rest;
      }
      assert s == [c] + s[1..];
    }
  }

  lemma {:induction false} EscapeUnescape(s: string, t: string)
    requires Unescape(s) == Some(t)
    ensures Escape(t) == s
    decreases |s|
  {
    if s != [] {
      if s[0] == '%' {
        var u :| Unescape(s[3..]) == Some(u) && t == [t[0]] + u;
        EscapeUnescape(s[3..], u);
        assert EscapeChar(t[0]) == s[..3];
        assert t[1..] == u;
        assert s == s[..3] + s[3..];
      } else {
        var u :| Unescape(s[1..]) == Some(u) && t == [s[0]] + u;
        EscapeUnescape(s[1..], u);
        assert t[1..] == u;
        assert s == [s[0]] + s[1..];
      }
    }
  }

  /** Escape is injective: different texts never escape to the same string. */
  lemma EscapeInjective(s: string, t: string)
    requires Escape(s) == Escape(t)
    ensures s == t
  {
    UnescapeEscape(s);
    UnescapeEscape(t);
  }

  // ---------------------------------------------------------------------------
  // Canonical decimal integers: no leading zeros, no "-0".
  // ---------------------------------------------------------------------------

  predicate IsDigit(c: char) { '0' <= c <= '9' }

  predicate AllDigits(s: string) { forall i :: 0 <= i < |s| ==> IsDigit(s[i]) }

  predicate CanonicalNat(s: string)
  {
    |s| > 0 && AllDigits(s) && (s[0] == '0' ==> |s| == 1)
  }

  function DigitChar(d: nat): (c: char)
    requires d < 10
    ensures IsDigit(c)
  {
    (d + '0' as int) as char
  }

  function DigitValue(c: char): (d: nat)
    requires IsDigit(c)
    ensures d < 10 && DigitChar(d) == c
  {
    c as int - '0' as int
  }

  /** The decimal digits of n, most significant first, without leading zeros. */
  function NatToDec(n: nat): (r: string)
    ensures CanonicalNat(r)
    ensures (r[0] == '0') == (n == 0)
    decreases n
  {
    if n < 10 then [DigitChar(n)] else NatToDec(n / 10) + [DigitChar(n % 10)]
  }

  function DecToNat(s: string): nat
    requires AllDigits(s)
    decreases |s|
  {
    if s == [] then 0 else DecToNat(s[..|s| - 1]) * 10 + DigitValue(s[|s| - 1])
  }

  lemma {:induction false} DecToNatToDec(n: nat)
    ensures DecToNat(NatToDec(n)) == n
    decreases n
  {
    if n >= 10 {
      var p := NatToDec(n / 10);
      var s := NatToDec(n);
      assert s[..|s| - 1] == p;
      DecToNatToDec(n / 10);
    }
  }

  lemma {:induction false} NatToDecToNat(s: string)
    requires CanonicalNat(s)
    ensures NatToDec(DecToNat(s)) == s
    decreases |s|
  {
    var p, d := s[..|s| - 1], s[|s| - 1];
    if |s| == 1 {
      assert p == [];
    } else {
      assert p[0] == s[0];
      assert CanonicalNat(p);
      NatToDecToNat(p);
      assert DecToNat(p) > 0;
      var n := DecToNat(s);
      assert n / 10 == DecToNat(p) && n % 10 == DigitValue(d);
      assert s == p + [d];
    }
  }

  /** Signed decimal: an optional '-' and canonical digits. */
  function IntToDec(n: int): (r: string)
    ensures '.' !in r && ',' !in r
  {
    var s := if n < 0 then "-" + NatToDec(-n) else NatToDec(n);
    assert forall i :: 0 <= i < |s| ==> s[i] == '-' || IsDigit(s[i]);
    s
  }

  function DecToInt(s: string): Option<int>
  {
    if |s| > 0 && s[0] == '-' then
      if CanonicalNat(s[1..]) && s[1..] != "0" then
        var v := -(DecToNat(s[1..]) as int);
        Some(v)
      else None
    else if CanonicalNat(s) then Some(DecToNat(s))
    else None
  }

  lemma DecToIntToDec(n: int)
    ensures DecToInt(IntToDec(n)) == Some(n)
  {
    if n < 0 {
      var s := IntToDec(n);
      var digits := NatToDec(-n);
      assert s == "-" + digits && s[0] == '-' && s[1..] == digits;
      assert digits[0] != '0';
      assert digits != "0";
      DecToNatToDec(-n);
      assert DecToInt(s) == Some(-(DecToNat(digits) as int));
    } else {
      DecToNatToDec(n);
    }
  }

  lemma IntToDecToInt(s: string, n: int)
    requires DecToInt(s) == Some(n)
    ensures IntToDec(n) == s
  {
    if |s| > 0 && s[0] == '-' {
      NatToDecToNat(s[1..]);
      assert DecToNat(s[1..]) > 0;
      assert s == "-" + s[1..];
    } else {
      NatToDecToNat(s);
    }
  }

  // ---------------------------------------------------------------------------
  // Joining and splitting on one separator character.
  // ---------------------------------------------------------------------------

  function Join(sep: char, parts: seq<string>): string
    decreases |parts|
  {
    if |parts| == 0 then ""
    else if |parts| == 1 then parts[0]
    else parts[0] + [sep] + Join(sep, parts[1..])
  }

  /** Splits at every occurrence of sep; like Go's strings.Split, never empty. */
  function Split(sep: char, s: string): (r: seq<string>)
    ensures |r| > 0
    ensures forall i :: 0 <= i < |r| ==> sep !in r[i]
    decreases |s|
  {
    if s == [] then [""]
    else
      var tail := Split(sep, s[1..]);
      if s[0] == sep then [""] + tail
      else
        assert sep !in [s[0]] + tail[0];
        [[s[0]] + tail[0]] + tail[1..]
  }

  lemma {:induction false} SplitPrefix(sep: char, p: string, t: string)
    requires sep !in p
    ensures Split(sep, p + t) == [p + Split(sep, t)[0]] + Split(sep, t)[1..]
    decreases |p|
  {
    if p != [] {
      var T := Split(sep, t);
      assert (p + t)[0] == p[0] && (p + t)[1..] == p[1..] + t;
      SplitPrefix(sep, p[1..], t);
      var tail := Split(sep, p[1..] + t);
      assert tail == [p[1..] + T[0]] + T[1..];
      assert tail[0] == p[1..] + T[0] && tail[1..] == T[1..];
      assert p + t != [] && (p + t)[0] != sep;
      assert Split(sep, p + t) == [[p[0]] + tail[0]] + tail[1..];
      assert [p[0]] + (p[1..] + T[0]) == p + T[0];
    } else {
      var T := Split(sep, t);
      assert p + t == t && p + T[0] == T[0];
      assert T == [T[0]] + T[1..];
    }
  }

  lemma {:induction false} SplitJoin(sep: char, parts: seq<string>)
    requires |parts| > 0
    requires forall i :: 0 <= i < |parts| ==> sep !in parts[i]
    ensures Split(sep, Join(sep, parts)) == parts
    decreases |parts|
  {
    if |parts| == 1 {
      SplitPrefix(sep, parts[0], "");
      assert parts[0] + "" == parts[0];
    } else {
      var rest := Join(sep, parts[1..]);
      assert Join(sep, parts) == parts[0] + ([sep] + rest);
      SplitPrefix(sep, parts[0], [sep] + rest);
      assert ([sep] + rest)[1..] == rest;
      SplitJoin(sep, parts[1..]);
      assert parts[0] + "" == parts[0];
      assert parts == [parts[0]] + parts[1..];
    }
  }

  lemma {:induction false} JoinSplit(sep: char, s: string)
    ensures Join(sep, Split(sep, s)) == s
    decreases |s|
  {
    if s != [] {
      var tail := Split(sep, s[1..]);
      JoinSplit(sep, s[1..]);
      if s[0] == sep {
        assert ([""] + tail)[1..] == tail;
        assert s == [sep] + s[1..];
      } else if |tail| == 1 {
        assert s == [s[0]] + s[1..];
      } else {
        var r := [[s[0]] + tail[0]] + tail[1..];
        assert r[1..] == tail[1..];
        assert s == [s[0]] + s[1..];
      }
    }
  }

  /** A character that is in no part and is not the separator is not in the joined text. */
  lemma {:induction false} JoinAvoids(sep: char, parts: seq<string>, c: char)
    requires c != sep
    requires forall i :: 0 <= i < |parts| ==> c !in parts[i]
    ensures c !in Join(sep, parts)
    decreases |parts|
  {
    if |parts| > 1 {
      JoinAvoids(sep, parts[1..], c);
    }
  }
}
