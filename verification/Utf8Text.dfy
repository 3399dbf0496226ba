/** UTF-8 read back into code units, against the encoding of `Text`. */
module Utf8Text {
  import opened Text
  import opened Options
  import Seqs

  /** How many continuation bytes follow a leading byte. */
  function Following(lead: Byte): Option<nat> {
    if lead < 0x80 then Some(0)
    else if 0xC0 <= lead < 0xE0 then Some(1)
    else if 0xE0 <= lead < 0xF0 then Some(2)
    else if 0xF0 <= lead < 0xF8 then Some(3)
    else None
  }

  /** The code point whose leading bits are `p` and whose other bits are in `bytes`, six in each. */
  function Continued(p: nat, bytes: seq<Byte>): Option<nat>
    decreases |bytes|
  {
    if bytes == [] then Some(p)
    else if 0x80 <= bytes[0] < 0xC0 then Continued(p * 0x40 + (bytes[0] - 0x80), bytes[1..])
    else None
  }

  /** A code point must not be written longer than needed, be a surrogate, or exceed U+10FFFF. */
  predicate Shortest(p: nat, n: nat)
    requires n <= 3
  {
    [0, 0x80, 0x800, 0x1_0000][n] <= p < [0x80, 0x800, 0x1_0000, 0x11_0000][n] && !(0xD800 <= p < 0xE000)
  }

  /** The first code point of `bytes`, when it is well formed. */
  function FirstCodePoint(bytes: seq<Byte>): (p: Option<nat>)
    requires bytes != []
    ensures p.Some? ==> Following(bytes[0]).Some? && |bytes| > Following(bytes[0]).value && p.value < 0x11_0000
  {
    var n := Following(bytes[0]);
    if n.None? || |bytes| <= n.value then None
    else
      var p := Continued(bytes[0] - [0, 0xC0, 0xE0, 0xF0][n.value], bytes[1..n.value + 1]);
      if p.Some? && Shortest(p.value, n.value) then p else None
  }

  /** One code unit, or a surrogate pair. */
  function Units(p: nat): (s: Text)
    requires p < 0x11_0000
  {
    if p < 0x1_0000 then [p] else [0xD800 + (p - 0x1_0000) / 0x400, 0xDC00 + (p - 0x1_0000) % 0x400]
  }

  /** Strict decoding: `None` for bytes that are not well-formed UTF-8. */
  function FromUtf8(bytes: seq<Byte>): Option<Text> {
    if bytes == [] then Some([])
    else
      var p := FirstCodePoint(bytes);
      if p.None? then None
      else
        var rest := FromUtf8(bytes[Following(bytes[0]).value + 1..]);
        if rest.None? then None else Some(Units(p.value) + rest.value)
  }

  predicate Surrogate(c: CodeUnit) { HighSurrogate(c) || LowSurrogate(c) }

  /** `s` with every unpaired surrogate replaced by a question mark. */
  function Questioned(s: Text): (r: Text)
    ensures |r| == |s|
  {
    if s == [] then []
    else if CpLen(s) == 1 && Surrogate(s[0]) then ['?' as int] + Questioned(s[1..])
    else s[..CpLen(s)] + Questioned(s[CpLen(s)..])
  }

  /** Every high surrogate has a low one after it, and every low one a high one before it. */
  predicate Paired(s: Text) { forall i :: 0 <= i < |s| ==> PairedAt(s, i) }

  predicate PairedAt(s: Text, i: int) {
    && 0 <= i < |s|
    && (HighSurrogate(s[i]) ==> i + 1 < |s| && LowSurrogate(s[i + 1]))
    && (LowSurrogate(s[i]) ==> i > 0 && HighSurrogate(s[i - 1]))
  }

  lemma {:induction false} ContinuedOf(p: nat, n: nat, high: nat)
    requires n <= 3 && high == p / [1, 0x40, 0x1000, 0x4_0000][n]
    ensures Continued(high, Continuation(p, n)) == Some(p)
  {
    if n > 0 {
      var init, last := Continuation(p / 0x40, n - 1), 0x80 + p % 0x40;
      ContinuedOf(p / 0x40, n - 1, high);
      ContinuedAppend(high, init, last);
    }
  }

  lemma {:induction false} ContinuedAppend(p: nat, init: seq<Byte>, last: Byte)
    requires 0x80 <= last < 0xC0
    ensures Continued(p, init + [last])
         == if Continued(p, init).Some? then Some(Continued(p, init).value * 0x40 + (last - 0x80)) else None
    decreases |init|
  {
    if init == [] {
      assert init + [last] == [last] && [last][1..] == [];
    } else {
      assert (init + [last])[1..] == init[1..] + [last];
      ContinuedAppend(p * 0x40 + if init[0] < 0x80 then 0 else init[0] - 0x80, init[1..], last);
    }
  }

  lemma ReadsMultiByte(p: nat, n: nat, rest: seq<Byte>)
    requires 1 <= n <= 3 && Shortest(p, n)
    ensures var bytes := MultiByte(p, n) + rest;
      Following(bytes[0]) == Some(n) && FirstCodePoint(bytes) == Some(p) && bytes[n + 1..] == rest
  {
    hide Continuation, Continued;
    var bytes := MultiByte(p, n) + rest;
    ContinuedOf(p, n, bytes[0] - [0, 0xC0, 0xE0, 0xF0][n]);
    assert bytes[1..n + 1] == Continuation(p, n);
    assert Following(bytes[0]) == Some(n);
  }

  /** What the bytes of the first code point are read as. */
  lemma ReadsFirst(s: Text, rest: seq<Byte>)
    requires s != []
    ensures var bytes, n := CpBytes(s) + rest, CpLen(s);
      && FirstCodePoint(bytes).Some? && bytes[Following(bytes[0]).value + 1..] == rest
      && Units(FirstCodePoint(bytes).value) == if n == 1 && Surrogate(s[0]) then ['?' as int] else s[..n]
  {
    var c: int := s[0];
    if CpLen(s) == 2 {
      var p: nat := 0x1_0000 + (c - 0xD800) * 0x400 + (s[1] - 0xDC00);
      ReadsMultiByte(p, 3, rest);
      assert (p - 0x1_0000) / 0x400 == c - 0xD800;
    } else if c >= 0x80 && !Surrogate(c) {
      ReadsMultiByte(c, if c < 0x800 then 1 else 2, rest);
    } else {
      assert (CpBytes(s) + rest)[1..] == rest && (CpBytes(s) + rest)[1..1] == [];
    }
  }

  /** The encoding is read back, except that an unpaired surrogate is a question mark now. */
  lemma {:induction false} FromUtf8OfUtf8(s: Text)
    ensures FromUtf8(Utf8(s)) == Some(Questioned(s))
  {
    hide FirstCodePoint, Following, CpBytes, Units;
    if s != [] {
      FromUtf8OfUtf8(s[CpLen(s)..]);
      ReadsFirst(s, Utf8(s[CpLen(s)..]));
    }
  }

  lemma {:induction false} QuestionedIfUnpaired(s: Text)
    ensures Questioned(s) == s <==> Paired(s)
  {
    if s != [] {
      var n, rest := CpLen(s), s[CpLen(s)..];
      QuestionedIfUnpaired(rest);
      PairedStep(s);
      assert s == s[..n] + rest;
      var first := if n == 1 && Surrogate(s[0]) then ['?' as int] else s[..n];
      assert Questioned(s) == first + Questioned(rest) && |first| == n;
      assert Questioned(s)[..n] == first && Questioned(s)[n..] == Questioned(rest);
      assert !Surrogate('?' as int);
    }
  }

  lemma PairedStep(s: Text)
    requires s != []
    ensures Paired(s) <==> !(CpLen(s) == 1 && Surrogate(s[0])) && Paired(s[CpLen(s)..])
  {
    var n, rest := CpLen(s), s[CpLen(s)..];
    if Paired(s) {
      assert PairedAt(s, 0);
      forall i | 0 <= i < |rest| ensures PairedAt(rest, i) {
        assert PairedAt(s, i + n);
      }
    } else if !(n == 1 && Surrogate(s[0])) {
      var i :| 0 <= i < |s| && !PairedAt(s, i);
      assert !PairedAt(rest, i - n);
    }
  }

  /** A text comes back from its UTF-8 form exactly when it holds no unpaired surrogate. */
  lemma Utf8RoundTrip(s: Text)
    ensures FromUtf8(Utf8(s)) == Some(s) <==> Paired(s)
  {
    FromUtf8OfUtf8(s);
    QuestionedIfUnpaired(s);
  }
}
