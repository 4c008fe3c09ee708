/** Escaping of a command result for the JSON message that carries it. */
module JsonEscape {
  import opened Common

  /** A C string without its terminator: bytes other than zero. */
  type Text = seq<byte>

  const MAX_RESULT: nat := 2000
  const SIZE_MODULUS: nat := 0x1_0000_0000_0000_0000

  const QUOTE: byte := 34
  const BACKSLASH: byte := 92
  const LF: byte := 10
  const CR: byte := 13
  const TAB: byte := 9
  const SPACE: byte := 32

  function EscapeByte(c: byte): (r: Text)
    ensures 1 <= |r| <= 2
  {
    if c == QUOTE then [BACKSLASH, QUOTE]
    else if c == BACKSLASH then [BACKSLASH, BACKSLASH]
    else if c == LF then [BACKSLASH, 110]
    else if c == CR then [BACKSLASH, 114]
    else if c == TAB then [BACKSLASH, 116]
    else if c < 32 then [SPACE]
    else [c]
  }

  function Escape(s: Text): Text {
    if s == [] then [] else Escape(Front(s)) + EscapeByte(Last(s))
  }

  lemma {:induction false} EscapeSize(s: Text)
    ensures |s| <= |Escape(s)| <= 2 * |s|
  {
    if s != [] {
      EscapeSize(Front(s));
    }
  }

  lemma EscapeLast(s: Text, c: byte)
    ensures Escape(s + [c]) == Escape(s) + EscapeByte(c)
  {
    hide EscapeByte;
    assert Front(s + [c]) == s;
  }

  lemma {:induction false} EscapeFront(c: byte, s: Text)
    ensures Escape([c] + s) == EscapeByte(c) + Escape(s)
  {
    hide EscapeByte; hide Escape;
    if s == [] {
      assert [c] + s == [] + [c];
      EscapeLast([], c);
      EscapeNone();
    } else {
      EscapeFront(c, Front(s));
      assert s == Front(s) + [Last(s)] && [c] + s == ([c] + Front(s)) + [Last(s)];
      EscapeLast(Front(s), Last(s));
      EscapeLast([c] + Front(s), Last(s));
    }
  }

  /** The stop bound of the loop: unsigned subtraction from the buffer size, which wraps for short texts. */
  function StopBound(len: nat): nat {
    var escapedSize := 2 * len + 1;
    if escapedSize >= 10 then escapedSize - 10 else escapedSize - 10 + SIZE_MODULUS
  }

  /** The loop stops in front of character `n`. */
  ghost predicate StopsAt(s: Text, n: nat) {
    && n <= |s|
    && (forall i :: 0 <= i < n ==> |Escape(s[..i])| < StopBound(|s|))
    && (n < |s| ==> |Escape(s[..n])| >= StopBound(|s|))
  }

  lemma {:induction false} EscapeMonotone(s: Text, i: nat, j: nat)
    requires i <= j <= |s|
    ensures |Escape(s[..i])| <= |Escape(s[..j])|
    decreases j
  {
    if i < j {
      EscapeMonotone(s, i, j - 1);
      assert Front(s[..j]) == s[..j - 1];
    }
  }

  /** At most the last four characters are dropped, and the terminator still fits behind the rest. */
  lemma DropsAtMostFour(s: Text, n: nat)
    requires |s| < SIZE_MODULUS / 4 && StopsAt(s, n)
    ensures |s| - n <= 4
    ensures |Escape(s[..n])| < 2 * |s| + 1
  {
    EscapeSize(s[..n]);
    if n > 0 && 2 * |s| + 1 >= 10 {
      assert Front(s[..n]) == s[..n - 1];
      assert |Escape(s[..n - 1])| < StopBound(|s|);
    }
  }

  /** Exactly when nothing is dropped: the text is shorter than five characters, or everything before
      its last character still escapes to less than the stop bound. */
  lemma KeepsAllExactly(s: Text, n: nat)
    requires |s| < SIZE_MODULUS / 4 && StopsAt(s, n)
    ensures n == |s| <==> |s| < 5 || |Escape(s[..|s| - 1])| < 2 * |s| - 9
  {
    if |s| < 5 {
      EscapeSize(s[..n]);
    } else if n < |s| {
      EscapeMonotone(s, n, |s| - 1);
    }
  }

  /** Ten quotes: the loop stops in front of the seventh. */
  lemma TenQuotesLoseFour(n: nat)
    ensures StopsAt(seq(10, _ => QUOTE), n) <==> n == 6
  {
    var s: Text := seq(10, _ => QUOTE);
    hide Escape;
    forall i: nat | i <= 10
      ensures |Escape(s[..i])| == 2 * i
    {
      QuotesDouble(s[..i]);
    }
    assert StopBound(|s|) == 11 && |Escape(s[..6])| == 12;
    assert forall i: nat :: i < 6 ==> |Escape(s[..i])| < 11;
  }

  lemma {:induction false} QuotesDouble(s: Text)
    requires forall i :: 0 <= i < |s| ==> s[i] == QUOTE
    ensures |Escape(s)| == 2 * |s|
  {
    if s != [] {
      QuotesDouble(Front(s));
    }
  }

  /** The truncate-and-escape loop, writing through index `j` into its own buffer. */
  method EscapeResult(result: Text) returns (escaped: array<byte>, j: nat, ghost kept: nat)
    ensures fresh(escaped)
    ensures var text := result[..Min(|result|, MAX_RESULT)];
            StopsAt(text, kept) && |text| - kept <= 4
            && escaped.Length == 2 * |text| + 1
            && j < escaped.Length && escaped[..j] == Escape(text[..kept]) && escaped[j] == 0
  {
    hide EscapeByte; hide Escape; hide StopBound;
    var text := if |result| > MAX_RESULT then result[..MAX_RESULT] else result;
    assert text == result[..Min(|result|, MAX_RESULT)];
    escaped := new byte[2 * |text| + 1];
    j := 0;
    var i := 0;
    EscapeNone();
    assert text[..0] == [];
    while i < |text| && j < StopBound(|text|)
      invariant 0 <= i <= |text| && j <= 2 * i
      invariant forall k :: 0 <= k < i ==> |Escape(text[..k])| < StopBound(|text|)
      invariant escaped[..j] == Escape(text[..i])
    {
      EscapeNext(text, i);
      var out := EscapeByte(text[i]);
      Write(escaped, j, out);
      j := j + |out|;
      i := i + 1;
    }
    kept := i;
    DropsAtMostFour(text, kept);
    escaped[j] := 0;
    assert escaped[..j] == Escape(text[..kept]);
  }

  /** One or two assignments to the buffer. */
  method Write(buffer: array<byte>, j: nat, out: Text)
    requires 1 <= |out| <= 2 && j + |out| <= buffer.Length
    modifies buffer
    ensures buffer[..j + |out|] == old(buffer[..j]) + out
  {
    buffer[j] := out[0];
    if |out| == 2 {
      buffer[j + 1] := out[1];
    }
  }

  lemma EscapeNone()
    ensures Escape([]) == []
  {
  }

  lemma EscapeNext(s: Text, i: nat)
    requires i < |s|
    ensures Escape(s[..i + 1]) == Escape(s[..i]) + EscapeByte(s[i])
  {
    hide EscapeByte;
    assert Front(s[..i + 1]) == s[..i];
  }

  // ---------------------------------------------------------------------
  // JSON string content (section 7 of RFC 8259), byte by byte.
  // ---------------------------------------------------------------------

  predicate IsHex(c: byte) {
    48 <= c <= 57 || 65 <= c <= 70 || 97 <= c <= 102
  }

  predicate Legal(t: Text) {
    if t == [] then true
    else if t[0] == BACKSLASH then
      |t| >= 2 &&
      if t[1] == 117 then |t| >= 6 && IsHex(t[2]) && IsHex(t[3]) && IsHex(t[4]) && IsHex(t[5]) && Legal(t[6..])
      else t[1] in {QUOTE, BACKSLASH, 47, 98, 102, 110, 114, 116} && Legal(t[2..])
    else t[0] >= 32 && t[0] != QUOTE && Legal(t[1..])
  }

  /** What the character behind a backslash stands for, apart from \u. */
  function Meaning(c: byte): Option<byte> {
    if c == QUOTE || c == BACKSLASH || c == 47 then Some(c)
    else if c == 98 then Some(8)
    else if c == 102 then Some(12)
    else if c == 110 then Some(LF)
    else if c == 114 then Some(CR)
    else if c == 116 then Some(TAB)
    else None
  }

  /** Decoding of content without \u escapes. */
  function Unescape(t: Text): Option<Text> {
    if t == [] then Some([])
    else if t[0] == BACKSLASH then
      if |t| < 2 || Meaning(t[1]) == None then None else
      (match Unescape(t[2..]) case None => None case Some(r) => Some([Meaning(t[1]).value] + r))
    else
      match Unescape(t[1..]) case None => None case Some(r) => Some([t[0]] + r)
  }

  /** Control characters other than newline, carriage return and tab become spaces. */
  function Clean(c: byte): byte {
    if c < 32 && c != LF && c != CR && c != TAB then SPACE else c
  }

  function CleanAll(s: Text): (r: Text)
    ensures |r| == |s|
  {
    seq(|s|, i requires 0 <= i < |s| => Clean(s[i]))
  }

  lemma CleanFront(s: Text)
    requires s != []
    ensures CleanAll(s) == [Clean(s[0])] + CleanAll(s[1..])
  {
  }

  lemma DecodeStep(c: byte, rest: Text)
    ensures Legal(EscapeByte(c) + rest) <==> Legal(rest)
    ensures Unescape(EscapeByte(c) + rest) ==
            match Unescape(rest) case None => None case Some(r) => Some([Clean(c)] + r)
  {
    var t := EscapeByte(c) + rest;
    assert t[|EscapeByte(c)|..] == rest;
  }

  /** Every escaped text is legal string content and decodes to the cleaned text. */
  lemma {:induction false} EscapeDecodes(s: Text)
    ensures Legal(Escape(s))
    ensures Unescape(Escape(s)) == Some(CleanAll(s))
    decreases s
  {
    if s != [] {
      hide *;
      EscapeDecodes(s[1..]);
      assert [s[0]] + s[1..] == s;
      EscapeFront(s[0], s[1..]);
      DecodeStep(s[0], Escape(s[1..]));
      CleanFront(s);
    }
  }

  /** What the receiver of a command result reads back: a prefix of the (truncated) text, short of at
      most its last four characters. */
  lemma ResultReadsBack(text: Text, kept: nat)
    requires |text| <= MAX_RESULT && StopsAt(text, kept)
    ensures Legal(Escape(text[..kept]))
    ensures Unescape(Escape(text[..kept])) == Some(CleanAll(text)[..kept]) && |text| - kept <= 4
  {
    EscapeDecodes(text[..kept]);
    DropsAtMostFour(text, kept);
    assert CleanAll(text[..kept]) == CleanAll(text)[..kept];
  }
}
