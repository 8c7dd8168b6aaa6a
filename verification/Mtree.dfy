/** Escaping of file names in mtree listings (lib/util.c). */
module Mtree {
  import opened Common
  import opened Protocol

  const BACKSLASH: byte := 0x5C
  const ENOBUFS: int := 105

  // ----- encoding

  /** Space, tab, form feed, carriage return and newline. */
  predicate IsSpace(c: byte) {
    c == 0x20 || c == 0x09 || c == 0x0C || c == 0x0D || c == 0x0A
  }

  function Escape(c: byte): (r: seq<byte>) {
    if c == BACKSLASH then [BACKSLASH, BACKSLASH]
    else if IsSpace(c) then [BACKSLASH, 0x30 + c / 64 % 8, 0x30 + c / 8 % 8, 0x30 + c % 8]
    else [c]
  }

  /** The escaped form of a C string. */
  function Encoded(s: seq<byte>): seq<byte>
    decreases |s|
  {
    if s == [] || s[0] == 0 then [] else Escape(s[0]) + Encoded(s[1..])
  }

  /** What is escaped, and how: blanks with three octal digits, backslashes with a second one. */
  lemma EscapedForms()
    ensures Escape(0x20) == [0x5C, 0x30, 0x34, 0x30] && Escape(0x09) == [0x5C, 0x30, 0x31, 0x31]
    ensures Escape(0x0C) == [0x5C, 0x30, 0x31, 0x34] && Escape(0x0D) == [0x5C, 0x30, 0x31, 0x35]
    ensures Escape(0x0A) == [0x5C, 0x30, 0x31, 0x32] && Escape(0x5C) == [0x5C, 0x5C]
  {
  }

  /** An escaped name has no blank that would end it in a line of a listing. */
  lemma {:induction false} NoBlanksInside(s: seq<byte>)
    ensures forall c :: c in Encoded(s) ==> c !in {0x20, 0x09, 0x0C, 0x0D, 0x0A}
    decreases |s|
  {
    if s != [] && s[0] != 0 {
      NoBlanksInside(s[1..]);
    }
  }

  /** A name without blanks, backslashes and NUL bytes is its own escaped form. */
  lemma {:induction false} PlainIsKept(s: seq<byte>)
    requires forall i :: 0 <= i < |s| ==> s[i] !in {0x20, 0x09, 0x0C, 0x0D, 0x0A, 0x5C, 0x00}
    ensures Encoded(s) == s
    decreases |s|
  {
    if s != [] {
      assert s[0] !in {0x20, 0x09, 0x0C, 0x0D, 0x0A, 0x5C, 0x00};
      PlainIsKept(s[1..]);
      assert s == [s[0]] + s[1..];
    }
  }

  // ----- decoding

  predicate IsOctal(c: byte) {
    0x30 <= c <= 0x37
  }

  /** The value of up to `3 - count` octal digits behind the value so far, and how many there are. */
  function Octal(t: seq<byte>, count: nat, value: byte): (r: (byte, nat))
    ensures r.1 <= |t|
    decreases |t|
  {
    if t == [] || count >= 3 || !IsOctal(t[0]) then (value, 0)
    else
      var rest := Octal(t[1..], count + 1, (value * 8 + (t[0] - 0x30)) % 256);
      (rest.0, rest.1 + 1)
  }

  /** What an escaped C string stands for. */
  function Decoded(t: seq<byte>): seq<byte>
    decreases |t|
  {
    if t == [] || t[0] == 0 then []
    else if t[0] != BACKSLASH then [t[0]] + Decoded(t[1..])
    else if |t| == 1 then []
    else if t[1] == BACKSLASH then [BACKSLASH] + Decoded(t[2..])
    else
      var octal := Octal(t[1..], 0, 0);
      [octal.0] + Decoded(t[1 + octal.1..])
  }

  /** Text without backslashes and NUL bytes stands for itself. */
  lemma {:induction false} PlainIsItself(t: seq<byte>)
    requires forall i :: 0 <= i < |t| ==> t[i] != 0x5C && t[i] != 0x00
    ensures Decoded(t) == t
    decreases |t|
  {
    if t != [] {
      PlainIsItself(t[1..]);
      assert t == [t[0]] + t[1..];
    }
  }

  /** The number that octal digits stand for. */
  function NumberOf(digits: seq<byte>): int {
    if digits == [] then 0 else NumberOf(digits[..|digits| - 1]) * 8 + (digits[|digits| - 1] as int - 0x30)
  }

  predicate AllOctal(t: seq<byte>) {
    forall i :: 0 <= i < |t| ==> t[i] in {0x30, 0x31, 0x32, 0x33, 0x34, 0x35, 0x36, 0x37}
  }

  /** Behind a backslash stand up to three octal digits, as many as there are; their value is one byte. */
  lemma {:induction false} OctalIs(t: seq<byte>)
    ensures var (value, n) := Octal(t, 0, 0);
            && n <= 3 && n <= |t| && AllOctal(t[..n]) && (n < 3 && n < |t| ==> !AllOctal(t[..n + 1]))
            && value == NumberOf(t[..n]) % 256
  {
    OctalGoesOn(t, 0);
  }

  lemma {:induction false} OctalGoesOn(t: seq<byte>, k: nat)
    requires k <= |t| && k <= 3 && AllOctal(t[..k])
    ensures var (value, n) := Octal(t[k..], k, NumberOf(t[..k]) % 256);
            && k + n <= 3 && k + n <= |t| && AllOctal(t[..k + n])
            && (k + n < 3 && k + n < |t| ==> !AllOctal(t[..k + n + 1]))
            && value == NumberOf(t[..k + n]) % 256
    decreases 3 - k
  {
    hide Octal, NumberOf, AllOctal;
    if k < |t| && k < 3 && IsOctal(t[k]) {
      var value := NumberOf(t[..k]) % 256;
      OneDigit(t, k);
      OctalTakes(t[k..], k, value);
      assert t[k..][1..] == t[k + 1..];
      OctalGoesOn(t, k + 1);
    } else {
      OctalStops(t[k..], k, NumberOf(t[..k]) % 256);
      if k < |t| && k < 3 {
        NoDigit(t, k);
      }
    }
  }

  lemma OctalTakes(t: seq<byte>, count: nat, value: byte)
    requires t != [] && count < 3 && IsOctal(t[0])
    ensures var rest := Octal(t[1..], count + 1, (value * 8 + (t[0] - 0x30)) % 256);
            Octal(t, count, value) == (rest.0, rest.1 + 1)
  {
  }

  lemma {:induction false} OctalStops(t: seq<byte>, count: nat, value: byte)
    requires t == [] || count >= 3 || !IsOctal(t[0])
    ensures Octal(t, count, value) == (value, 0)
  {
  }

  lemma {:induction false} OneDigit(t: seq<byte>, k: nat)
    requires k < |t| && AllOctal(t[..k]) && IsOctal(t[k])
    ensures AllOctal(t[..k + 1])
    ensures NumberOf(t[..k + 1]) % 256 == (NumberOf(t[..k]) % 256 * 8 + (t[k] as int - 0x30)) % 256
  {
    hide AllOctal;
    assert t[..k + 1][..k] == t[..k];
    RestOfDigits(NumberOf(t[..k]), t[k] as int - 0x30);
    MoreDigits(t, k);
  }

  lemma MoreDigits(t: seq<byte>, k: nat)
    requires k < |t| && AllOctal(t[..k]) && IsOctal(t[k])
    ensures AllOctal(t[..k + 1])
  {
  }

  lemma RestOfDigits(number: int, digit: int)
    ensures (number * 8 + digit) % 256 == (number % 256 * 8 + digit) % 256
  {
    assert number * 8 + digit == number / 256 * 8 * 256 + (number % 256 * 8 + digit);
  }

  lemma NoDigit(t: seq<byte>, k: nat)
    requires k < |t| && !IsOctal(t[k])
    ensures !AllOctal(t[..k + 1])
  {
    assert t[..k + 1][k] == t[k];
  }

  // ----- the round trip

  /** Three digits of at most three bits each give the value back. */
  lemma {:induction false} OctalOf(a: byte, b: byte, d: byte, t: seq<byte>)
    requires a < 4 && b < 8 && d < 8 && |t| >= 3 && t[0] == 0x30 + a && t[1] == 0x30 + b && t[2] == 0x30 + d
    ensures Octal(t, 0, 0) == (a * 64 + b * 8 + d, 3)
  {
    hide Octal;
    var t1 := t[1..];
    var t2 := t1[1..];
    OctalStep(t, 0, 0, a);
    OctalStep(t1, 1, a, b);
    OctalStep(t2, 2, a * 8 + b, d);
    OctalEnds(t2[1..], (a * 8 + b) * 8 + d);
  }

  lemma OctalStep(t: seq<byte>, count: nat, value: byte, digit: byte)
    requires t != [] && count < 3 && digit < 8 && t[0] == 0x30 + digit && value * 8 + digit < 256
    ensures var rest := Octal(t[1..], count + 1, value * 8 + digit);
            Octal(t, count, value) == (rest.0, rest.1 + 1)
  {
  }

  lemma {:induction false} OctalEnds(t: seq<byte>, value: byte)
    ensures Octal(t, 3, value) == (value, 0)
  {
  }

  lemma EscapeSpace(c: byte)
    requires IsSpace(c)
    ensures Escape(c) == [BACKSLASH, 0x30 + c / 64, 0x30 + c / 8 % 8, 0x30 + c % 8]
    ensures c / 64 * 64 + c / 8 % 8 * 8 + c % 8 == c
  {
  }

  /** Decoding takes back one escaped character at a time. */
  lemma {:induction false} DecodesEscape(c: byte, rest: seq<byte>)
    requires c != 0
    ensures Decoded(Escape(c) + rest) == [c] + Decoded(rest)
  {
    hide Octal;
    var t := Escape(c) + rest;
    if c == BACKSLASH {
      assert t[2..] == rest;
    } else if IsSpace(c) {
      EscapeSpace(c);
      assert t[4..] == rest;
      assert t[1..][0] == t[1] && t[1..][1] == t[2] && t[1..][2] == t[3];
      OctalOf(c / 64, c / 8 % 8, c % 8, t[1..]);
    } else {
      assert t[1..] == rest;
    }
  }

  lemma {:induction false} EncodedHead(s: seq<byte>)
    requires s != [] && s[0] != 0
    ensures Encoded(s) == Escape(s[0]) + Encoded(s[1..])
  {
  }

  lemma {:induction false} DecodesEncoded(s: seq<byte>, rest: seq<byte>)
    requires 0 !in s
    ensures Decoded(Encoded(s) + rest) == s + Decoded(rest)
  {
    hide Decoded, Escape;
    if s == [] {
      assert Encoded(s) + rest == rest;
    } else {
      EncodedHead(s);
      DecodesEncoded(s[1..], rest);
      DecodesEscape(s[0], Encoded(s[1..]) + rest);
      Associates(Escape(s[0]), Encoded(s[1..]), rest);
      Associates([s[0]], s[1..], Decoded(rest));
      assert s == [s[0]] + s[1..];
    }
  }

  /** Decoding undoes encoding, for every string without NUL bytes. */
  lemma {:induction false} RoundTrip(s: seq<byte>)
    requires 0 !in s
    ensures Decoded(Encoded(s)) == s
  {
    DecodesEncoded(s, []);
    assert Encoded(s) + [] == Encoded(s);
  }

  /** A backslash that lost its second half decodes to nothing. */
  lemma {:induction false} CutRoundTrip(s: seq<byte>)
    requires 0 !in s
    ensures Decoded(Encoded(s) + [BACKSLASH]) == s
  {
    DecodesEncoded(s, [BACKSLASH]);
  }

  // ----- the encoder

  lemma {:induction false} EncodedSplit(s: seq<byte>, i: nat)
    requires i <= |s| && 0 !in s[..i]
    ensures Encoded(s) == Encoded(s[..i]) + Encoded(s[i..])
  {
    hide Escape;
    if i == 0 {
      assert s[..0] == [] && s[0..] == s;
    } else {
      assert s[0] == s[..i][0] && s[..i][1..] == s[1..][..i - 1] && s[1..][i - 1..] == s[i..];
      EncodedSplit(s[1..], i - 1);
      EncodedHead(s);
      EncodedHead(s[..i]);
      Associates(Escape(s[0]), Encoded(s[..i][1..]), Encoded(s[i..]));
    }
  }

  /** One more character. */
  lemma {:induction false} EncodedStep(s: seq<byte>, i: nat)
    requires i < |s| && 0 !in s[..i] && s[i] != 0
    ensures 0 !in s[..i + 1]
    ensures Encoded(s[..i + 1]) == Encoded(s[..i]) + Escape(s[i])
    ensures |Encoded(s[..i])| + |Escape(s[i])| <= |Encoded(s)|
  {
    hide Escape;
    var t := s[..i + 1];
    assert t[..i] == s[..i] && t[i..] == [s[i]];
    EncodedSplit(t, i);
    EncodedHead([s[i]]);
    assert [s[i]][1..] == [] && Escape(s[i]) + [] == Escape(s[i]);
    EncodedSplit(s, i + 1);
  }

  lemma {:induction false} EncodedAll(s: seq<byte>, i: nat)
    requires i <= |s| && 0 !in s[..i] && (i < |s| ==> s[i] == 0)
    ensures Encoded(s) == Encoded(s[..i])
    ensures i == |s| <==> 0 !in s
  {
    EncodedSplit(s, i);
    if i == |s| {
      assert s[..i] == s;
    }
  }

  lemma NothingEncoded(s: seq<byte>)
    ensures Encoded(s[..0]) == [] && 0 !in s[..0]
  {
  }

  /** The bytes in the buffer are the escaped form of the first `kept` characters, perhaps with half a backslash. */
  ghost predicate Kept(out: seq<byte>, src: seq<byte>, kept: nat) {
    && kept <= |src| && 0 !in src[..kept]
    && (out == Encoded(src[..kept]) || out == Encoded(src[..kept]) + [BACKSLASH])
  }

  /** What a buffer of any size holds decodes to a prefix of the string. */
  lemma {:induction false} KeptIsPrefix(out: seq<byte>, src: seq<byte>, kept: nat)
    requires Kept(out, src, kept)
    ensures Decoded(out) == src[..kept]
  {
    RoundTrip(src[..kept]);
    CutRoundTrip(src[..kept]);
  }

  /** Stores one byte if there is a buffer. */
  method Put(dst: array?<byte>, at: nat, c: byte, ghost out: seq<byte>)
    requires dst != null ==> at < dst.Length && dst[..at] == out
    modifies dst
    ensures dst != null ==> dst[..at + 1] == out + [c]
  {
    if dst != null {
      dst[at] := c;
    }
  }

  /** A count of `dstSize` is reached inside of an escaped backslash or right behind it. */
  ghost predicate Stumbles(src: seq<byte>, dstSize: nat) {
    exists i :: 0 <= i < |src| && StumblesAt(src, i, dstSize)
  }

  ghost predicate StumblesAt(src: seq<byte>, i: nat, dstSize: nat)
    requires i < |src|
  {
    0 !in src[..i] && src[i] == BACKSLASH && |Encoded(src[..i])| < dstSize <= |Encoded(src[..i])| + 2
  }

  /** How the encoder's loop ends: at the end of the text, or out of space in front of or inside an escape. */
  ghost predicate Stopped(src: seq<byte>, i: nat, out: seq<byte>, dstSize: nat, buffered: bool) {
    && i <= |src| && 0 !in src[..i] && |out| <= |Encoded(src)|
    && (buffered ==> |out| <= dstSize && (i == |src| || src[i] == 0 || |out| + 4 >= dstSize))
    && (forall j :: 0 <= j < i ==> !StumblesAt(src, j, dstSize))
    && (AtEscape(src, i, out, dstSize, buffered) || InEscape(src, i, out, dstSize))
  }

  ghost predicate AtEscape(src: seq<byte>, i: nat, out: seq<byte>, dstSize: nat, buffered: bool)
    requires i <= |src|
  {
    && out == Encoded(src[..i])
    && (i == |src| || src[i] == 0 || (buffered && dstSize <= |Encoded(src)|))
    && (buffered && |out| == dstSize ==> i > 0 && out == Encoded(src[..i - 1]) + [src[i - 1]])
  }

  ghost predicate InEscape(src: seq<byte>, i: nat, out: seq<byte>, dstSize: nat)
    requires i <= |src|
  {
    && |out| == dstSize && i < |src| && src[i] == BACKSLASH
    && (out == Encoded(src[..i]) + [BACKSLASH] || out == Encoded(src[..i]) + [BACKSLASH] + [BACKSLASH])
  }

  method Escapes(dst: array?<byte>, dstSize: nat, src: seq<byte>) returns (i: nat, at: nat, ghost out: seq<byte>)
    requires dst != null ==> 0 < dstSize <= dst.Length
    modifies dst
    ensures Stopped(src, i, out, dstSize, dst != null) && at == |out|
    ensures dst != null ==> dst[..at] == out
  {
    hide Encoded, Escape, Decoded, Octal;
    i, at, out := 0, 0, [];
    NothingEncoded(src);
    while i != |src| && src[i] != 0 && (dst == null || at != dstSize)
      invariant i <= |src| && 0 !in src[..i]
      invariant out == Encoded(src[..i]) && |out| == at <= |Encoded(src)|
      invariant dst != null ==> at <= dstSize && dst[..at] == out
      invariant forall j :: 0 <= j < i ==> !StumblesAt(src, j, dstSize)
      invariant dst != null && at == dstSize ==> i > 0 && out == Encoded(src[..i - 1]) + [src[i - 1]]
      decreases |src| - i
    {
      var c := src[i];
      EncodedStep(src, i);
      EscapeCases(c);
      if c == BACKSLASH {
        Put(dst, at, BACKSLASH, out);
        out, at := out + [BACKSLASH], at + 1;
        if at == dstSize {
          break;
        }
        Put(dst, at, BACKSLASH, out);
        out, at := out + [BACKSLASH], at + 1;
        if at == dstSize {
          break;
        }
      } else if IsSpace(c) {
        if dst != null && at + 4 >= dstSize {
          break;
        }
        Put4(dst, at, BACKSLASH, 0x30 + c / 64 % 8, 0x30 + c / 8 % 8, 0x30 + c % 8, out);
        out, at := out + Escape(c), at + 4;
      } else {
        Put(dst, at, c, out);
        out, at := out + [c], at + 1;
      }
      Associates(Encoded(src[..i]), [BACKSLASH], [BACKSLASH]);
      i := i + 1;
    }
  }

  method Put4(dst: array?<byte>, at: nat, a: byte, b: byte, c: byte, d: byte, ghost out: seq<byte>)
    requires dst != null ==> at + 4 <= dst.Length && dst[..at] == out
    modifies dst
    ensures dst != null ==> dst[..at + 4] == out + [a, b, c, d]
  {
    Put(dst, at, a, out);
    Put(dst, at + 1, b, out + [a]);
    Put(dst, at + 2, c, out + [a] + [b]);
    Put(dst, at + 3, d, out + [a] + [b] + [c]);
  }

  /** The last byte makes room for the terminator. */
  lemma {:induction false} Terminated(src: seq<byte>, i: nat, out: seq<byte>, dstSize: nat) returns (kept: nat)
    requires Stopped(src, i, out, dstSize, true) && 0 < dstSize
    ensures Kept(out[..if |out| == dstSize then |out| - 1 else |out|], src, kept)
    ensures |Encoded(src)| < dstSize ==> out == Encoded(src) && (i == |src| <==> 0 !in src)
  {
    hide Encoded;
    kept := i;
    if AtEscape(src, i, out, dstSize, true) {
      if |out| == dstSize {
        kept := i - 1;
        assert out[..|out| - 1] == Encoded(src[..kept]);
      } else {
        assert out[..|out|] == out;
        if |Encoded(src)| < dstSize {
          EncodedAll(src, i);
        }
      }
    } else {
      assert out[..|out| - 1] == Encoded(src[..i]) || out[..|out| - 1] == Encoded(src[..i]) + [BACKSLASH];
    }
  }

  lemma {:induction false} Counted(src: seq<byte>, i: nat, out: seq<byte>, dstSize: nat)
    requires Stopped(src, i, out, dstSize, false)
    ensures if Stumbles(src, dstSize) then |out| == dstSize > 0 && dstSize <= |Encoded(src)|
            else out == Encoded(src) && (i == |src| <==> 0 !in src)
  {
    hide Encoded, Escape;
    if AtEscape(src, i, out, dstSize, false) {
      EncodedAll(src, i);
      forall j | i < j < |src| ensures 0 in src[..j] {
        assert src[..j][i] == src[i];
      }
    } else {
      EncodedStep(src, i);
      EscapeCases(src[i]);
      assert StumblesAt(src, i, dstSize);
    }
  }

  /**
   * The escaped form of `src`, cut to the buffer, and its length; without a buffer only the length.
   * `err` is the new value of errno, if it is set.
   */
  method Encode(dst: array?<byte>, dstSize: nat, src: seq<byte>) returns (at: nat, err: Option<int>, ghost kept: nat)
    requires dst != null ==> 0 < dstSize <= dst.Length
    modifies dst
    ensures src == [] ==> at == 0 && err == None && (dst != null ==> dst[..] == old(dst[..]))
    ensures src != [] && dst != null ==> at < dstSize && dst[at] == 0 && Kept(dst[..at], src, kept)
    ensures src != [] && dst != null && |Encoded(src)| < dstSize ==>
              dst[..at] == Encoded(src) && err == Some(if 0 in src then ENOBUFS else 0)
    ensures src != [] && dst != null && |Encoded(src)| >= dstSize ==> at + 4 >= dstSize
    ensures src != [] && dst != null ==> forall k :: 0 <= k < at ==> dst[k] !in {0x20, 0x09, 0x0C, 0x0D, 0x0A}
    ensures src != [] && dst == null ==>
              (at == |Encoded(src)| <==> !Stumbles(src, dstSize) && (dstSize == 0 || dstSize != |Encoded(src)|))
    ensures src != [] && dst == null && !Stumbles(src, dstSize) ==> err == Some(if 0 in src then ENOBUFS else 0)
  {
    hide Encoded, Kept, Stopped, Stumbles;
    if src == [] {
      return 0, None, 0;
    }
    var i;
    ghost var out;
    i, at, out := Escapes(dst, dstSize, src);
    kept := 0;
    if dst != null {
      BufferHolds(src, i, out, dstSize);
      kept := Terminated(src, i, out, dstSize);
    } else {
      Counted(src, i, out, dstSize);
    }
    if at > 0 && at == dstSize {
      at := at - 1;
    }
    if dst != null {
      assert dst[..at] == out[..at];
      dst[at] := 0;
    }
    err := Some(if i == |src| then 0 else ENOBUFS);
    if dst != null {
      KeptHasNoBlanks(dst[..at], src, kept);
    }
  }

  lemma {:induction false} KeptHasNoBlanks(out: seq<byte>, src: seq<byte>, kept: nat)
    requires Kept(out, src, kept)
    ensures forall k :: 0 <= k < |out| ==> out[k] !in {0x20, 0x09, 0x0C, 0x0D, 0x0A}
  {
    NoBlanksInside(src[..kept]);
    forall k | 0 <= k < |out| ensures out[k] in Encoded(src[..kept]) || out[k] == 0x5C {
    }
  }

  lemma {:induction false} BufferHolds(src: seq<byte>, i: nat, out: seq<byte>, dstSize: nat)
    requires Stopped(src, i, out, dstSize, true)
    ensures |out| <= dstSize && |out| <= |Encoded(src)|
    ensures |Encoded(src)| >= dstSize ==> |out| + 4 >= dstSize
  {
    hide Encoded;
    if AtEscape(src, i, out, dstSize, true) && (i == |src| || src[i] == 0) {
      EncodedAll(src, i);
    }
  }

  lemma EscapeCases(c: byte)
    ensures c == BACKSLASH ==> Escape(c) == [BACKSLASH] + [BACKSLASH] && !IsSpace(c)
    ensures IsSpace(c) ==> Escape(c) == [BACKSLASH] + [0x30 + c / 64 % 8] + [0x30 + c / 8 % 8] + [0x30 + c % 8]
    ensures c != BACKSLASH && !IsSpace(c) ==> Escape(c) == [c]
  {
  }

  // ----- the decoder

  /** Reads up to three octal digits. */
  method OctalDigits(src: seq<byte>, start: nat) returns (i: nat, value: byte)
    requires start <= |src|
    ensures start <= i <= |src| && Octal(src[start..], 0, 0) == (value, i - start)
  {
    var count: nat := 0;
    i, value := start, 0;
    while i != |src| && count < 3 && IsOctal(src[i])
      invariant start <= i <= |src| && count == i - start <= 3
      invariant Octal(src[start..], 0, 0) == (Octal(src[i..], count, value).0, count + Octal(src[i..], count, value).1)
      decreases |src| - i
    {
      assert src[i..][1..] == src[i + 1..];
      value := (value * 8 + (src[i] - 0x30)) % 256;
      i, count := i + 1, count + 1;
    }
  }

  /** What one turn of the decoder does: a plain byte, a backslash or an octal number. */
  lemma DecodedStep(src: seq<byte>, i: nat)
    requires i < |src| && src[i] != 0
    ensures src[i] != BACKSLASH ==> Decoded(src[i..]) == [src[i]] + Decoded(src[i + 1..])
    ensures src[i] == BACKSLASH && i + 1 == |src| ==> Decoded(src[i..]) == []
    ensures src[i] == BACKSLASH && i + 1 < |src| && src[i + 1] == BACKSLASH ==>
              Decoded(src[i..]) == [BACKSLASH] + Decoded(src[i + 2..])
    ensures src[i] == BACKSLASH && i + 1 < |src| && src[i + 1] != BACKSLASH ==>
              var octal := Octal(src[i + 1..], 0, 0);
              i + 1 + octal.1 <= |src| && Decoded(src[i..]) == [octal.0] + Decoded(src[i + 1 + octal.1..])
  {
    hide Octal;
    var t := src[i..];
    assert t[1..] == src[i + 1..];
    if |t| > 1 {
      assert t[1] == src[i + 1] && t[2..] == src[i + 2..];
      assert t[1 + Octal(t[1..], 0, 0).1..] == src[i + 1 + Octal(t[1..], 0, 0).1..];
    }
  }

  lemma DecodedEnd(src: seq<byte>, i: nat)
    requires i <= |src| && (i < |src| ==> src[i] == 0)
    ensures Decoded(src[i..]) == []
  {
  }

  /**
   * What `src` stands for, cut to the buffer, and its length. The cut is at the byte limit: only
   * the terminator needs room of its own.
   */
  method Decode(dst: array?<byte>, dstSize: nat, src: seq<byte>) returns (at: nat, err: Option<int>)
    requires dst != null ==> 0 < dstSize <= dst.Length
    modifies dst
    ensures src == [] ==> at == 0 && err == None && (dst != null ==> dst[..] == old(dst[..]))
    ensures src != [] && dst != null ==>
              at == Min(|Decoded(src)|, dstSize - 1) && dst[..at] == Decoded(src)[..at] && dst[at] == 0
    ensures src != [] && dst == null ==> (at == |Decoded(src)| <==> dstSize == 0 || dstSize != |Decoded(src)|)
    ensures src != [] && 0 !in src && (dst == null || |Decoded(src)| < dstSize) ==> err == Some(0)
  {
    hide Decoded, Octal;
    if src == [] {
      return 0, None;
    }
    var i := 0;
    at := 0;
    ghost var out := [];
    assert src[0..] == src;
    while i != |src| && src[i] != 0 && (dst == null || at != dstSize)
      invariant i <= |src| && |out| == at
      invariant out + Decoded(src[i..]) == Decoded(src)
      invariant dst != null ==> at <= dstSize && dst[..at] == out
      decreases |src| - i
    {
      DecodedStep(src, i);
      ghost var rest := Decoded(src[i..]);
      if src[i] == BACKSLASH {
        i := i + 1;
        if i == |src| {
          DecodedEnd(src, i);
          break;
        }
        if src[i] == BACKSLASH {
          Put(dst, at, BACKSLASH, out);
          Associates(out, [BACKSLASH], Decoded(src[i + 1..]));
          out, at, i := out + [BACKSLASH], at + 1, i + 1;
          continue;
        }
        var value;
        i, value := OctalDigits(src, i);
        Put(dst, at, value, out);
        Associates(out, [value], Decoded(src[i..]));
        out, at := out + [value], at + 1;
      } else {
        Put(dst, at, src[i], out);
        Associates(out, [src[i]], Decoded(src[i + 1..]));
        out, at, i := out + [src[i]], at + 1, i + 1;
      }
    }
    if i == |src| || src[i] == 0 {
      DecodedEnd(src, i);
    }
    if at > 0 && at == dstSize {
      at := at - 1;
    }
    if dst != null {
      assert dst[..at] == out[..at];
      dst[at] := 0;
    }
    err := Some(if i == |src| then 0 else ENOBUFS);
  }

  /** Encoding into a large enough buffer and decoding into another gives the string back. */
  method EncodeAndDecode(s: seq<byte>, escaped: array<byte>, plain: array<byte>)
    requires s != [] && 0 !in s && escaped != plain
    requires |Encoded(s)| < escaped.Length && |s| < plain.Length
    modifies escaped, plain
    ensures plain[..|s|] == s && plain[|s|] == 0
  {
    RoundTrip(s);
    var n, err, kept := Encode(escaped, escaped.Length, s);
    var m, err2 := Decode(plain, plain.Length, escaped[..n]);
  }
}
