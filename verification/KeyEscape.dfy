/**
 Percent-encoding of key parts (pipeline/DatabaseManager, escapeKeyStr). Keys are escaped parts
 joined by `~`, so no escaped part may hold one.
 */
module KeyEscapes {
  import opened Bytes

  const PERCENT: byte := 37
  const TILDE: byte := 126

  predicate NeedsEscape(v: byte) {
    v < 33 || v > 125 || v == PERCENT
  }

  function HexDigit(d: int): byte
    requires 0 <= d < 16
  {
    if d < 10 then 48 + d else 55 + d
  }

  function HexValue(c: byte): Option<int> {
    if 48 <= c <= 57 then Some(c - 48) else if 65 <= c <= 70 then Some(c - 55) else None
  }

  /** Section 2.1 of RFC 3986 for one byte. */
  function EscapeByte(v: byte): bytes {
    if NeedsEscape(v) then [PERCENT, HexDigit(v / 16), HexDigit(v % 16)] else [v]
  }

  function Escape(s: bytes): bytes {
    if s == [] then [] else Escape(s[..|s| - 1]) + EscapeByte(s[|s| - 1])
  }

  function Unescape(b: bytes): Option<bytes> {
    if b == [] then Some([])
    else if b[0] != PERCENT then
      (match Unescape(b[1..]) case Some(rest) => Some([b[0]] + rest) case None => None)
    else if |b| < 3 then None
    else
      match (HexValue(b[1]), HexValue(b[2]), Unescape(b[3..]))
      case (Some(hi), Some(lo), Some(rest)) => Some([hi * 16 + lo] + rest)
      case _ => None
  }

  /** The two-pointer loop: a run of bytes that need no escape is copied at once. */
  method EscapeKeyStr(str: bytes, out0: bytes) returns (out: bytes)
    ensures out == out0 + Escape(str)
  {
    hide Escape;
    out := out0;
    EscapeNothing();
    var p, last := 0, 0;
    while p < |str|
      invariant 0 <= last <= p <= |str|
      invariant forall i :: last <= i < p ==> !NeedsEscape(str[i])
      invariant out == out0 + Escape(str[..last])
    {
      var v := str[p];
      if NeedsEscape(v) {
        EscapeUpTo(str, last, p);
        EscapeOneMore(str, p);
        out := out + str[last..p];
        out := out + [PERCENT, HexDigit(v / 16), HexDigit(v % 16)];
        p := p + 1;
        last := p;
      } else {
        p := p + 1;
      }
    }
    EscapeUpTo(str, last, p);
    assert str[..p] == str;
    out := out + str[last..p];
  }

  /** Bytes 33 to 125 but the percent sign stand for themselves, all others become a percent sign and two
      upper-case hexadecimal digits. */
  function PercentAt(s: bytes, i: nat): bytes
    requires i < |s|
  {
    var hex := Ascii("0123456789ABCDEF");
    if 33 <= s[i] <= 125 && s[i] != 37 then [s[i]] else [37, hex[s[i] / 16], hex[s[i] % 16]]
  }

  lemma HexDigits(d: int)
    requires 0 <= d < 16
    ensures HexDigit(d) == Ascii("0123456789ABCDEF")[d]
  {
  }

  lemma {:induction false} EscapeText(s: bytes)
    ensures Escape(s) == Flatten(seq(|s|, i requires 0 <= i < |s| => PercentAt(s, i)))
  {
    hide Ascii, HexDigit;
    if s != [] {
      var init, last := s[..|s| - 1], |s| - 1;
      EscapeText(init);
      HexDigits(s[last] / 16);
      HexDigits(s[last] % 16);
      var chain := seq(|s|, i requires 0 <= i < |s| => PercentAt(s, i));
      var front := seq(|init|, i requires 0 <= i < |init| => PercentAt(init, i));
      assert EscapeByte(s[last]) == PercentAt(s, last);
      assert chain == front + [PercentAt(s, last)];
      FlattenAppend(front, [PercentAt(s, last)]);
      FlattenOne(PercentAt(s, last));
    }
  }

  lemma EscapeNothing()
    ensures Escape([]) == []
  {
  }

  lemma EscapeUpTo(str: bytes, last: nat, p: nat)
    requires last <= p <= |str| && forall i :: last <= i < p ==> !NeedsEscape(str[i])
    ensures Escape(str[..p]) == Escape(str[..last]) + str[last..p]
  {
    hide Escape;
    EscapeRun(str[..last], str[last..p]);
    assert str[..last] + str[last..p] == str[..p];
  }

  lemma EscapeOneMore(str: bytes, p: nat)
    requires p < |str|
    ensures Escape(str[..p + 1]) == Escape(str[..p]) + EscapeByte(str[p])
  {
    assert str[..p + 1][..p] == str[..p];
  }

  lemma {:induction false} EscapeRun(s: bytes, run: bytes)
    requires forall i :: 0 <= i < |run| ==> !NeedsEscape(run[i])
    ensures Escape(s + run) == Escape(s) + run
  {
    if run == [] {
      assert s + run == s;
    } else {
      var init := run[..|run| - 1];
      assert (s + run)[..|s + run| - 1] == s + init;
      EscapeRun(s, init);
      assert init + [run[|run| - 1]] == run;
    }
  }

  /** Only bytes 33 to 125 come out, so no separator. */
  lemma {:induction false} EscapedIsPlain(s: bytes)
    ensures forall i :: 0 <= i < |Escape(s)| ==> 33 <= Escape(s)[i] <= 125
    ensures TILDE !in Escape(s)
  {
    if s != [] {
      EscapedIsPlain(s[..|s| - 1]);
      EscapedByteIsPlain(s[|s| - 1]);
    }
  }

  lemma EscapedByteIsPlain(v: byte)
    ensures forall i :: 0 <= i < |EscapeByte(v)| ==> 33 <= EscapeByte(v)[i] <= 125
  {
  }

  lemma UnescapeByte(v: byte, rest: bytes)
    ensures Unescape(EscapeByte(v) + rest) ==
            match Unescape(rest) case Some(r) => Some([v] + r) case None => None
  {
    var b := EscapeByte(v) + rest;
    if NeedsEscape(v) {
      assert b[1] == HexDigit(v / 16) && b[2] == HexDigit(v % 16) && b[3..] == rest;
      assert v / 16 * 16 + v % 16 == v;
    } else {
      assert b[0] == v && b[1..] == rest;
    }
  }

  lemma {:induction false} UnescapeEscapeThen(s: bytes, rest: bytes)
    ensures Unescape(Escape(s) + rest) ==
            match Unescape(rest) case Some(r) => Some(s + r) case None => None
  {
    hide Unescape, EscapeByte;
    if s == [] {
      assert Escape(s) + rest == rest;
      if Unescape(rest).Some? {
        assert s + Unescape(rest).value == Unescape(rest).value;
      }
    } else {
      var init, v := s[..|s| - 1], s[|s| - 1];
      assert Escape(s) + rest == Escape(init) + (EscapeByte(v) + rest);
      UnescapeEscapeThen(init, EscapeByte(v) + rest);
      UnescapeByte(v, rest);
      if Unescape(rest).Some? {
        assert init + ([v] + Unescape(rest).value) == s + Unescape(rest).value;
      }
    }
  }

  /** Escaping can be undone. */
  lemma UnescapeEscape(s: bytes)
    ensures Unescape(Escape(s)) == Some(s)
  {
    UnescapeEscapeThen(s, []);
    assert Escape(s) + [] == Escape(s) && s + [] == s;
  }

  lemma EscapeInjective(s: bytes, t: bytes)
    requires Escape(s) == Escape(t)
    ensures s == t
  {
    UnescapeEscape(s);
    UnescapeEscape(t);
  }

  /** Escaped parts joined by the separator. */
  function Join(parts: seq<bytes>): bytes {
    if parts == [] then []
    else if |parts| == 1 then Escape(parts[0])
    else Escape(parts[0]) + [TILDE] + Join(parts[1..])
  }

  lemma CutAtSeparator(a: bytes, b: bytes, x: bytes, y: bytes)
    requires TILDE !in a && TILDE !in b
    requires a + [TILDE] + x == b + [TILDE] + y
    ensures a == b && x == y
  {
    var s := a + [TILDE] + x;
    assert s[|a|] == TILDE && s[|b|] == TILDE;
    assert forall i :: 0 <= i < |a| ==> s[i] == a[i];
    assert forall i :: 0 <= i < |b| ==> s[i] == b[i];
    assert |a| == |b|;
    assert a == s[..|a|] == b;
    assert x == s[|a| + 1..] == y;
  }

  lemma JoinHasSeparator(parts: seq<bytes>)
    requires |parts| > 1
    ensures TILDE in Join(parts)
  {
    hide Escape;
    assert Join(parts)[|Escape(parts[0])|] == TILDE;
  }

  /** A joined key splits into its parts in one way only. */
  lemma {:induction false} JoinSplitsUniquely(a: seq<bytes>, b: seq<bytes>)
    requires a != [] && b != [] && Join(a) == Join(b)
    ensures a == b
  {
    hide Escape;
    EscapedIsPlain(a[0]);
    EscapedIsPlain(b[0]);
    if |a| == 1 && |b| == 1 {
      EscapeInjective(a[0], b[0]);
    } else if |a| == 1 {
      JoinHasSeparator(b);
    } else if |b| == 1 {
      JoinHasSeparator(a);
    } else {
      CutAtSeparator(Escape(a[0]), Escape(b[0]), Join(a[1..]), Join(b[1..]));
      EscapeInjective(a[0], b[0]);
      JoinSplitsUniquely(a[1..], b[1..]);
      assert a == [a[0]] + a[1..] && b == [b[0]] + b[1..];
    }
  }
}
