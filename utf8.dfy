/** UTF-8 as the guest checks it: `std::str::from_utf8` accepts exactly the `UTF8-octets` of
    section 4 of RFC 3629 (no overlong forms, no surrogates, nothing above U+10FFFF) and, on
    failure, reports a `Utf8Error` whose `Display` text ends up in the response. */
module Utf8 {
  import opened Prelude
  import Decimal

  newtype byte = x: int | 0 <= x < 0x100

  /** UTF8-tail = %x80-BF */
  predicate IsTail(b: byte)
  {
    0x80 <= b <= 0xBF
  }

  /** UTF8-char of section 4 of RFC 3629, as an exact byte sequence:
        UTF8-1 = %x00-7F
        UTF8-2 = %xC2-DF UTF8-tail
        UTF8-3 = %xE0 %xA0-BF UTF8-tail / %xE1-EC 2( UTF8-tail ) /
                 %xED %x80-9F UTF8-tail / %xEE-EF 2( UTF8-tail )
        UTF8-4 = %xF0 %x90-BF 2( UTF8-tail ) / %xF1-F3 3( UTF8-tail ) /
                 %xF4 %x80-8F 2( UTF8-tail ) */
  predicate IsUtf8Char(c: seq<byte>)
  {
    if |c| == 1 then
      c[0] <= 0x7F
    else if |c| == 2 then
      0xC2 <= c[0] <= 0xDF && IsTail(c[1])
    else if |c| == 3 then
      (|| (c[0] == 0xE0 && 0xA0 <= c[1] <= 0xBF)
       || (0xE1 <= c[0] <= 0xEC && IsTail(c[1]))
       || (c[0] == 0xED && 0x80 <= c[1] <= 0x9F)
       || (0xEE <= c[0] <= 0xEF && IsTail(c[1])))
      && IsTail(c[2])
    else if |c| == 4 then
      (|| (c[0] == 0xF0 && 0x90 <= c[1] <= 0xBF)
       || (0xF1 <= c[0] <= 0xF3 && IsTail(c[1]))
       || (c[0] == 0xF4 && 0x80 <= c[1] <= 0x8F))
      && IsTail(c[2]) && IsTail(c[3])
    else
      false
  }

  /** UTF8-octets = *( UTF8-char ) */
  predicate IsUtf8(s: seq<byte>)
    decreases |s|
  {
    s == [] || exists n | 1 <= n <= 4 && n <= |s| :: IsUtf8Char(s[..n]) && IsUtf8(s[n..])
  }

  /** `core::str::utf8_char_width`: the length a lead byte announces, 0 for a byte that
      cannot start a character. */
  function Width(lead: byte): nat
  {
    if lead < 0x80 then 1
    else if 0xC2 <= lead <= 0xDF then 2
    else if 0xE0 <= lead <= 0xEF then 3
    else if 0xF0 <= lead <= 0xF4 then 4
    else 0
  }

  /** The range `from_utf8` allows for the byte after a multi-byte lead. */
  predicate SecondOk(lead: byte, b: byte)
  {
    if lead == 0xE0 then 0xA0 <= b <= 0xBF
    else if lead == 0xED then 0x80 <= b <= 0x9F
    else if lead == 0xF0 then 0x90 <= b <= 0xBF
    else if lead == 0xF4 then 0x80 <= b <= 0x8F
    else IsTail(b)
  }

  /** What the validator finds at the start of the unread input: a whole character of
      `width` bytes, an unexpected byte after `errorLen` bytes, or the end of the input
      in the middle of a character. */
  datatype Scan = Complete(width: nat) | Invalid(errorLen: nat) | Incomplete

  /** One step of `core::str::run_utf8_validation`. */
  function ScanChar(s: seq<byte>): (r: Scan)
    requires |s| > 0
    ensures r.Complete? ==> 1 <= r.width <= |s| && IsUtf8Char(s[..r.width])
    ensures r.Invalid? ==> 1 <= r.errorLen <= 3 && r.errorLen <= |s|
    ensures r.Incomplete? ==> 1 <= |s| < 4
  {
    var w := Width(s[0]);
    if w == 1 then Complete(1)
    else if w == 0 then Invalid(1)
    else if |s| < 2 then Incomplete
    else if !SecondOk(s[0], s[1]) then Invalid(1)
    else if w == 2 then Complete(2)
    else if |s| < 3 then Incomplete
    else if !IsTail(s[2]) then Invalid(2)
    else if w == 3 then Complete(3)
    else if |s| < 4 then Incomplete
    else if !IsTail(s[3]) then Invalid(3)
    else Complete(4)
  }

  /** `core::str::Utf8Error`: the length of the longest valid prefix, and the length of the
      invalid sequence after it (`None` when the input ends inside a character). */
  datatype Utf8Error = Utf8Error(validUpTo: nat, errorLen: Option<nat>)

  /** `Display for Utf8Error`, the text after "Input is not valid utf8: ". */
  function Display(e: Utf8Error): string
  {
    match e.errorLen
    case Some(n) =>
      "invalid utf-8 sequence of " + Decimal.ToString(n) + " bytes from index "
      + Decimal.ToString(e.validUpTo)
    case None =>
      "incomplete utf-8 byte sequence from index " + Decimal.ToString(e.validUpTo)
  }

  /** The Unicode scalar value a well-formed UTF8-char encodes; each length covers its own
      range, which is what rules out overlong forms. */
  function Scalar(c: seq<byte>): (v: int)
    requires IsUtf8Char(c)
    ensures |c| == 1 ==> 0 <= v < 0x80
    ensures |c| == 2 ==> 0x80 <= v < 0x800
    ensures |c| == 3 ==> 0x800 <= v < 0x10000 && !(0xD800 <= v < 0xE000)
    ensures |c| == 4 ==> 0x10000 <= v < 0x110000
  {
    if |c| == 1 then
      c[0] as int
    else if |c| == 2 then
      (c[0] as int - 0xC0) * 64 + (c[1] as int - 0x80)
    else if |c| == 3 then
      (c[0] as int - 0xE0) * 4096 + (c[1] as int - 0x80) * 64 + (c[2] as int - 0x80)
    else
      (c[0] as int - 0xF0) * 262144 + (c[1] as int - 0x80) * 4096
      + (c[2] as int - 0x80) * 64 + (c[3] as int - 0x80)
  }

  function CodePoint(c: seq<byte>): char
    requires IsUtf8Char(c)
  {
    Scalar(c) as char
  }

  /** `std::str::from_utf8`, with the text it accepts decoded to scalar values. */
  function FromUtf8(s: seq<byte>): (r: Result<string, Utf8Error>)
    decreases |s|
    ensures r.Ok? <==> IsUtf8(s)
    ensures r.Err? ==> r.error.validUpTo < |s| && IsUtf8(s[..r.error.validUpTo])
  {
    if s == [] then Ok([])
    else
      match ScanChar(s)
      case Complete(n) =>
        var rest := FromUtf8(s[n..]);
        if rest.Err? then
          var v := rest.error.validUpTo;
          PrefixSlices(s, n, v + n);
          ConsChar(s[..v + n], n);
          Err(Utf8Error(v + n, rest.error.errorLen))
        else
          ConsChar(s, n);
          Ok([CodePoint(s[..n])] + rest.value)
      case Invalid(k) =>
        assert !IsUtf8(s) by { NotUtf8WhenScanFails(s); }
        Err(Utf8Error(0, Some(k)))
      case Incomplete =>
        assert !IsUtf8(s) by { NotUtf8WhenScanFails(s); }
        Err(Utf8Error(0, None))
  }

  /** Cutting a prefix of length `k` and then splitting it at `n`. */
  lemma PrefixSlices(s: seq<byte>, n: nat, k: nat)
    requires n <= k <= |s|
    ensures s[..k][..n] == s[..n] && s[..k][n..] == s[n..][..k - n]
  {
  }

  lemma DropDrop(s: seq<byte>, n: nat, m: nat)
    requires n + m <= |s|
    ensures s[n..][m..] == s[m + n..]
  {
  }

  /** A character followed by valid UTF-8 is valid UTF-8. */
  lemma ConsChar(s: seq<byte>, n: nat)
    requires 1 <= n <= |s| && IsUtf8Char(s[..n]) && IsUtf8(s[n..])
    ensures IsUtf8(s)
  {
  }

  /** The validator and the grammar agree on where the first character ends: a well-formed
      character at the front is always the one `ScanChar` finds. */
  lemma ScanFindsChar(s: seq<byte>, n: nat)
    requires 1 <= n <= |s| && IsUtf8Char(s[..n])
    ensures ScanChar(s) == Complete(n)
  {
  }

  /** A whole character on its own is found whole. */
  lemma CharIsFound(s: seq<byte>)
    ensures IsUtf8Char(s) ==> ScanChar(s) == Complete(|s|)
  {
    if IsUtf8Char(s) {
      assert s[..|s|] == s;
      ScanFindsChar(s, |s|);
    }
  }

  lemma NotUtf8WhenScanFails(s: seq<byte>)
    requires |s| > 0 && !ScanChar(s).Complete?
    ensures !IsUtf8(s)
  {
    if IsUtf8(s) {
      var n :| 1 <= n <= 4 && n <= |s| && IsUtf8Char(s[..n]) && IsUtf8(s[n..]);
      ScanFindsChar(s, n);
    }
  }

  /** The byte sequence `p` can still grow into a UTF8-char. */
  ghost predicate ExtendsToChar(p: seq<byte>)
  {
    exists c :: IsUtf8Char(c) && |p| <= |c| && c[..|p|] == p
  }

  function Min(a: nat, b: nat): nat
  {
    if a < b then a else b
  }

  function Tails(n: nat): (t: seq<byte>)
    ensures |t| == n && forall i | 0 <= i < n :: t[i] == 0x80
  {
    seq(n, _ => 0x80)
  }

  /** The smallest byte `SecondOk` allows after `lead`. */
  function LeastSecond(lead: byte): byte
  {
    if lead == 0xE0 then 0xA0 else if lead == 0xF0 then 0x90 else 0x80
  }

  /** What `error_len` promises: `None` when the input ends inside a character that could
      still be completed; `Some(k)` when byte `k` (counting from the failing position) rules
      out every character, so the `k` bytes before it, at least one, are the invalid
      sequence to skip. */
  lemma ScanFailureMeaning(s: seq<byte>)
    requires |s| > 0
    ensures ScanChar(s).Incomplete? ==> ExtendsToChar(s) && !IsUtf8Char(s)
    ensures ScanChar(s).Invalid? ==>
      var k := ScanChar(s).errorLen;
      (k >= 2 ==> ExtendsToChar(s[..k])) && !ExtendsToChar(s[..Min(k + 1, |s|)])
  {
    if ScanChar(s).Incomplete? {
      IncompleteMeaning(s);
    } else if ScanChar(s).Invalid? {
      InvalidMeaning(s);
    }
  }

  lemma IncompleteMeaning(s: seq<byte>)
    requires |s| > 0 && ScanChar(s).Incomplete?
    ensures ExtendsToChar(s) && !IsUtf8Char(s)
  {
    var w := Width(s[0]);
    var c := if |s| == 1 then s + [LeastSecond(s[0])] + Tails(w - 2) else s + Tails(w - |s|);
    assert IsUtf8Char(c) && c[..|s|] == s;
    CharIsFound(s);
  }

  lemma InvalidMeaning(s: seq<byte>)
    requires |s| > 0 && ScanChar(s).Invalid?
    ensures var k := ScanChar(s).errorLen;
      (k >= 2 ==> ExtendsToChar(s[..k])) && !ExtendsToChar(s[..Min(k + 1, |s|)])
  {
    var w := Width(s[0]);
    var k := ScanChar(s).errorLen;
    if k >= 2 {
      var c := s[..k] + Tails(w - k);
      assert IsUtf8Char(c) && c[..k] == s[..k];
    }
    var m := Min(k + 1, |s|);
    if c :| IsUtf8Char(c) && m <= |c| && c[..m] == s[..m] {
      ScanFindsChar(c, |c|);
      assert forall i | 0 <= i < m :: c[i] == s[i] by {
        forall i | 0 <= i < m ensures c[i] == s[i] { assert c[..m][i] == s[..m][i]; }
      }
      assert false;
    }
  }

  /** A nonempty prefix of `s` that starts with a whole character starts with the same one. */
  lemma ScanOfPrefix(s: seq<byte>, t: seq<byte>)
    requires 0 < |t| <= |s| && t == s[..|t|] && ScanChar(t).Complete?
    ensures ScanChar(s) == ScanChar(t)
  {
    var n := ScanChar(t).width;
    assert t[..n] == s[..n];
    ScanFindsChar(s, n);
  }

  /** The error `from_utf8` reports is the scan failure at `valid_up_to`. */
  lemma {:induction false} ErrorIsScanFailure(s: seq<byte>)
    requires FromUtf8(s).Err?
    ensures var e := FromUtf8(s).error;
      ScanChar(s[e.validUpTo..]) == (if e.errorLen.None? then Incomplete else Invalid(e.errorLen.value))
  {
    match ScanChar(s)
    case Complete(n) =>
      ErrorAfterChar(s, n);
      ErrorIsScanFailure(s[n..]);
      DropDrop(s, n, FromUtf8(s[n..]).error.validUpTo);
    case Invalid(_) =>
      assert s[0..] == s;
    case Incomplete =>
      assert s[0..] == s;
  }

  /** Past a whole first character, the error is the rest's, shifted by the character. */
  lemma ErrorAfterChar(s: seq<byte>, n: nat)
    requires |s| > 0 && ScanChar(s) == Complete(n) && FromUtf8(s).Err?
    ensures FromUtf8(s[n..]).Err?
    ensures FromUtf8(s).error.validUpTo == FromUtf8(s[n..]).error.validUpTo + n
    ensures FromUtf8(s).error.errorLen == FromUtf8(s[n..]).error.errorLen
  {
  }

  /** `valid_up_to` is the longest valid prefix: every longer prefix is rejected too. */
  lemma {:induction false} LongerPrefixesRejected(s: seq<byte>, k: nat)
    requires FromUtf8(s).Err? && FromUtf8(s).error.validUpTo < k <= |s|
    ensures !IsUtf8(s[..k])
    decreases |s|, 1
  {
    match ScanChar(s)
    case Complete(n) =>
      LongerPrefixesRejectedAfterChar(s, n, k);
    case Invalid(_) =>
      PrefixOfFailureRejected(s, k);
    case Incomplete =>
      PrefixOfFailureRejected(s, k);
  }

  /** The inductive step: past a whole first character, the rest's error applies. */
  lemma {:induction false} LongerPrefixesRejectedAfterChar(s: seq<byte>, n: nat, k: nat)
    requires |s| > 0 && ScanChar(s) == Complete(n)
    requires FromUtf8(s).Err? && FromUtf8(s).error.validUpTo < k <= |s|
    ensures !IsUtf8(s[..k])
    decreases |s|, 0
  {
    var t := s[..k];
    ErrorAfterChar(s, n);
    PrefixSlices(s, n, k);
    ScanFindsChar(t, n);
    LongerPrefixesRejected(s[n..], k - n);
    NotUtf8AfterChar(t, n);
  }

  /** When no character starts `s`, no nonempty prefix of `s` is valid. */
  lemma PrefixOfFailureRejected(s: seq<byte>, k: nat)
    requires 0 < k <= |s| && !ScanChar(s).Complete?
    ensures !IsUtf8(s[..k])
  {
    var t := s[..k];
    if ScanChar(t).Complete? { ScanOfPrefix(s, t); }
    NotUtf8WhenScanFails(t);
  }

  lemma NotUtf8AfterChar(s: seq<byte>, n: nat)
    requires 1 <= n <= |s| && ScanChar(s) == Complete(n) && !IsUtf8(s[n..])
    ensures !IsUtf8(s)
  {
    if IsUtf8(s) {
      var m :| 1 <= m <= 4 && m <= |s| && IsUtf8Char(s[..m]) && IsUtf8(s[m..]);
      ScanFindsChar(s, m);
    }
  }

  /** The UTF-8 encoding of one scalar value (what `String` stores). */
  function EncodeChar(ch: char): (c: seq<byte>)
    ensures IsUtf8Char(c) && CodePoint(c) == ch
  {
    var v := ch as int;
    var c := if v < 0x80 then Encode1(v) else if v < 0x800 then Encode2(v)
             else if v < 0x10000 then Encode3(v) else Encode4(v);
    assert Scalar(c) == v;
    c
  }

  function Encode1(v: int): (c: seq<byte>)
    requires 0 <= v < 0x80
    ensures IsUtf8Char(c) && Scalar(c) == v
  {
    [v as byte]
  }

  function Encode2(v: int): (c: seq<byte>)
    requires 0x80 <= v < 0x800
    ensures IsUtf8Char(c) && Scalar(c) == v
  {
    var q, r := v / 64, v % 64;
    assert v == q * 64 + r && 2 <= q < 32;
    [(0xC0 + q) as byte, (0x80 + r) as byte]
  }

  function Encode3(v: int): (c: seq<byte>)
    requires 0x800 <= v < 0x10000 && !(0xD800 <= v < 0xE000)
    ensures IsUtf8Char(c) && Scalar(c) == v
  {
    var q, r := v / 4096, v % 4096;
    var q1, r1 := r / 64, r % 64;
    assert v == q * 4096 + r && 0 <= q < 16;
    assert r == q1 * 64 + r1 && 0 <= q1 < 64;
    assert q == 0 ==> q1 >= 32;
    assert q == 13 ==> q1 < 32;
    [(0xE0 + q) as byte, (0x80 + q1) as byte, (0x80 + r1) as byte]
  }

  function Encode4(v: int): (c: seq<byte>)
    requires 0x10000 <= v < 0x110000
    ensures IsUtf8Char(c) && Scalar(c) == v
  {
    var q, r := v / 262144, v % 262144;
    var q1, r1 := r / 4096, r % 4096;
    var q2, r2 := r1 / 64, r1 % 64;
    assert v == q * 262144 + r && 0 <= q <= 4;
    assert r == q1 * 4096 + r1 && 0 <= q1 < 64;
    assert r1 == q2 * 64 + r2 && 0 <= q2 < 64;
    assert q == 0 ==> q1 >= 16;
    assert q == 4 ==> q1 < 16;
    [(0xF0 + q) as byte, (0x80 + q1) as byte, (0x80 + q2) as byte, (0x80 + r2) as byte]
  }

  /** The bytes of a Rust `String`; `len()` is the length of this sequence. */
  function Encode(t: string): seq<byte>
  {
    if t == [] then [] else EncodeChar(t[0]) + Encode(t[1..])
  }

  /** A well-formed character is the encoding of the scalar value it denotes. */
  lemma CharRoundTrip(c: seq<byte>)
    requires IsUtf8Char(c)
    ensures EncodeChar(CodePoint(c)) == c
  {
    var v := Scalar(c);
    assert CodePoint(c) as int == v;
    if |c| == 2 {
      assert v == (c[0] as int - 0xC0) * 64 + (c[1] as int - 0x80);
      assert v / 64 == c[0] as int - 0xC0 && v % 64 == c[1] as int - 0x80;
    } else if |c| == 3 {
      var r := (c[1] as int - 0x80) * 64 + (c[2] as int - 0x80);
      assert v == (c[0] as int - 0xE0) * 4096 + r && 0 <= r < 4096;
      assert v / 4096 == c[0] as int - 0xE0 && v % 4096 == r;
      assert r / 64 == c[1] as int - 0x80 && r % 64 == c[2] as int - 0x80;
    } else if |c| == 4 {
      var r1 := (c[2] as int - 0x80) * 64 + (c[3] as int - 0x80);
      var r := (c[1] as int - 0x80) * 4096 + r1;
      assert v == (c[0] as int - 0xF0) * 262144 + r && 0 <= r < 262144 && 0 <= r1 < 4096;
      assert v / 262144 == c[0] as int - 0xF0 && v % 262144 == r;
      assert r / 4096 == c[1] as int - 0x80 && r % 4096 == r1;
      assert r1 / 64 == c[2] as int - 0x80 && r1 % 64 == c[3] as int - 0x80;
    }
  }

  /** Text encoded by the host and checked by `from_utf8` comes back unchanged. */
  lemma {:induction false} DecodeEncode(t: string)
    ensures FromUtf8(Encode(t)) == Ok(t)
  {
    if t != [] {
      var c := EncodeChar(t[0]);
      var s := Encode(t);
      assert s[..|c|] == c;
      ScanFindsChar(s, |c|);
      assert s[|c|..] == Encode(t[1..]);
      DecodeEncode(t[1..]);
      assert FromUtf8(s) == Ok([CodePoint(c)] + t[1..]);
      assert [t[0]] + t[1..] == t;
    }
  }

  /** Splits accepted bytes into their first character and the accepted rest. */
  lemma AcceptedCons(s: seq<byte>) returns (n: nat)
    requires s != [] && FromUtf8(s).Ok?
    ensures 1 <= n <= |s| && FromUtf8(s[n..]).Ok? && |FromUtf8(s).value| > 0
    ensures EncodeChar(FromUtf8(s).value[0]) == s[..n]
    ensures FromUtf8(s).value[1..] == FromUtf8(s[n..]).value
  {
    n := ScanChar(s).width;
    CharRoundTrip(s[..n]);
  }

  lemma SplitJoin(s: seq<byte>, n: nat)
    requires n <= |s|
    ensures s[..n] + s[n..] == s
  {
  }

  lemma EncodeCons(x: string)
    requires x != []
    ensures Encode(x) == EncodeChar(x[0]) + Encode(x[1..])
  {
  }

  /** Accepted bytes are exactly the encoding of the text they decode to. */
  lemma {:induction false} EncodeDecode(s: seq<byte>)
    requires FromUtf8(s).Ok?
    ensures Encode(FromUtf8(s).value) == s
  {
    if s != [] {
      var x := FromUtf8(s).value;
      var n := AcceptedCons(s);
      EncodeDecode(s[n..]);
      EncodeCons(x);
      SplitJoin(s, n);
    }
  }

  /** Everything `from_utf8` promises about its error: the prefix before `valid_up_to` is
      valid and no longer prefix is; the bytes from there on either end inside a character
      that could still be completed (`error_len` is `None`) or hold an invalid sequence of
      `error_len` bytes that no character can start with once the next byte is added. */
  lemma Utf8ErrorMeaning(s: seq<byte>)
    requires FromUtf8(s).Err?
    ensures var e := FromUtf8(s).error;
      var rest := s[e.validUpTo..];
      && IsUtf8(s[..e.validUpTo])
      && (forall k | e.validUpTo < k <= |s| :: !IsUtf8(s[..k]))
      && (e.errorLen.None? ==> ExtendsToChar(rest) && !IsUtf8Char(rest))
      && (e.errorLen.Some? ==>
            var n := e.errorLen.value;
            1 <= n <= 3 && n <= |rest| && (n >= 2 ==> ExtendsToChar(rest[..n]))
            && !ExtendsToChar(rest[..Min(n + 1, |rest|)]))
  {
    var e := FromUtf8(s).error;
    forall k | e.validUpTo < k <= |s| ensures !IsUtf8(s[..k]) {
      LongerPrefixesRejected(s, k);
    }
    ErrorIsScanFailure(s);
    ScanFailureMeaning(s[e.validUpTo..]);
  }
}
