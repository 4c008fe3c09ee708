/** Presets printed into the settings file as hex text, and parsed back. */
module Presets {
  import opened Common

  /** A C string without its terminator. */
  type Text = seq<byte>

  const COMMA: byte := 44
  const QUOTE: byte := 34
  const BACKSLASH: byte := 92
  const NEWLINE: byte := 10
  const PTZ_POS_SIZE: nat := 11

  // ---------------------------------------------------------------------
  // Hex numbers.
  // ---------------------------------------------------------------------

  /** What a character of the number is rewritten to, in an unsigned char. */
  function Rewritten(c: byte): byte {
    ((if c >= 65 then (c as int) - 65 + 10 else (c as int) - 48) % 256) as byte
  }

  /** Decimal digits and upper case letters are rewritten to their values, lower case letters to 32 more. */
  lemma RewrittenIs(c: byte)
    requires IsHexDigit(c)
    ensures Rewritten(c) == Nibble(c) + if c >= 97 then 32 else 0
  {
  }

  function Digit(c: byte): nat {
    Rewritten(c) % 16
  }

  function Pow16(n: nat): nat {
    if n == 0 then 1 else 16 * Pow16(n - 1)
  }

  /** Value of the digits `s`, most significant first. */
  function HexVal(s: Text): nat {
    if s == [] then 0 else HexVal(Front(s)) * 16 + Digit(Last(s))
  }

  predicate IsHexDigit(c: byte) {
    48 <= c <= 57 || 65 <= c <= 70 || 97 <= c <= 102
  }

  /** The standard reading of a hex digit. */
  function Nibble(c: byte): nat
    requires IsHexDigit(c)
  {
    if c <= 57 then c - 48 else if c <= 70 then c - 65 + 10 else c - 97 + 10
  }

  /** Positional base-16 value. */
  function Positional(s: Text): nat
    requires forall i :: 0 <= i < |s| ==> IsHexDigit(s[i])
  {
    if s == [] then 0 else Nibble(s[0]) * Pow16(|s| - 1) + Positional(s[1..])
  }

  lemma {:induction false} HexValSplit(a: Text, b: Text)
    ensures HexVal(a + b) == HexVal(a) * Pow16(|b|) + HexVal(b)
  {
    if b == [] {
      assert a + b == a;
    } else {
      assert Front(a + b) == a + Front(b);
      HexValSplit(a, Front(b));
      hide Digit;
      ShiftSum(HexVal(a), Pow16(|b| - 1), HexVal(Front(b)));
    }
  }

  lemma ShiftSum(x: nat, p: nat, h: nat)
    ensures (x * p + h) * 16 == x * (16 * p) + h * 16
  {
  }

  /** Upper and lower case digits, mixed at will, are read in the standard way. */
  lemma {:induction false} HexValIsPositional(s: Text)
    requires forall i :: 0 <= i < |s| ==> IsHexDigit(s[i])
    ensures HexVal(s) == Positional(s)
  {
    if s != [] {
      assert Digit(s[0]) == Nibble(s[0]);
      assert HexVal([s[0]]) == Digit(s[0]) by {
        assert Front([s[0]]) == [];
      }
      hide HexVal; hide Digit; hide Nibble;
      HexValIsPositional(s[1..]);
      HexValSplit([s[0]], s[1..]);
      assert [s[0]] + s[1..] == s;
    }
  }

  /** hex_str2val: rewrites the string in place while summing the shifted digits. */
  method HexStr2Val(data: array<byte>) returns (result: nat)
    modifies data
    ensures result == HexVal(old(data[..]))
    ensures forall i :: 0 <= i < data.Length ==> data[i] == Rewritten(old(data[i]))
  {
    hide Pow16; hide Rewritten; hide HexVal; hide Digit;
    result := 0;
    ghost var s := data[..];
    HexValNone(s);
    var len := data.Length;
    for i := 0 to len
      invariant forall k :: 0 <= k < i ==> data[k] == Rewritten(s[k])
      invariant forall k :: i <= k < len ==> data[k] == s[k]
      invariant result == HexVal(s[..i]) * Pow16(len - i)
    {
      data[i] := Rewritten(data[i]);
      var digit: nat := data[i] % 16;
      var shift := Shift(len - 1 - i);
      HexValNext(s, i);
      NextDigit(HexVal(s[..i]), digit, shift, len - 1 - i);
      result := result + digit * shift;
    }
    assert s[..len] == s && Pow16(0) == 1 by { Pow16Zero(); }
  }

  lemma HexValNone(s: Text)
    ensures HexVal(s[..0]) == 0
  {
  }

  lemma HexValNext(s: Text, i: nat)
    requires i < |s|
    ensures HexVal(s[..i + 1]) == HexVal(s[..i]) * 16 + Rewritten(s[i]) % 16
  {
    hide Rewritten;
    assert Front(s[..i + 1]) == s[..i];
  }

  lemma Pow16Zero()
    ensures Pow16(0) == 1
  {
  }

  lemma NextDigit(value: nat, digit: nat, shift: nat, n: nat)
    requires shift == Pow16(n)
    ensures value * Pow16(n + 1) + digit * shift == (value * 16 + digit) * Pow16(n)
  {
    assert value * Pow16(n + 1) == value * 16 * Pow16(n);
  }

  /** `1 << (4 * n)`. */
  method Shift(n: nat) returns (s: nat)
    ensures s == Pow16(n)
  {
    s := Pow16(n);
  }

  // ---------------------------------------------------------------------
  // Comma-separated lists of hex numbers.
  // ---------------------------------------------------------------------

  /** Length of the run without a comma at the front. */
  function TokenEnd(s: Text): (n: nat)
    ensures n <= |s|
    ensures forall i :: 0 <= i < n ==> s[i] != COMMA
    ensures n < |s| ==> s[n] == COMMA
  {
    if s == [] || s[0] == COMMA then 0 else 1 + TokenEnd(s[1..])
  }

  /** The tokens strtok finds: empty ones are skipped. */
  function Tokens(s: Text): seq<Text> {
    if s == [] then []
    else if s[0] == COMMA then Tokens(s[1..])
    else [s[..TokenEnd(s)]] + Tokens(s[TokenEnd(s)..])
  }

  lemma {:induction false} TokenEndAppend(a: Text, b: Text)
    requires b == [] || b[0] == COMMA
    ensures TokenEnd(a + b) == TokenEnd(a)
  {
    if a == [] {
      assert a + b == b;
    } else if a[0] != COMMA {
      assert (a + b)[1..] == a[1..] + b;
      TokenEndAppend(a[1..], b);
    }
  }

  lemma FirstToken(s: Text)
    requires s != [] && s[0] != COMMA
    ensures TokenEnd(s) > 0
    ensures Tokens(s) == [s[..TokenEnd(s)]] + Tokens(s[TokenEnd(s)..])
  {
  }

  lemma SkipComma(t: Text)
    ensures Tokens([COMMA] + t) == Tokens(t)
  {
    assert ([COMMA] + t)[1..] == t;
  }

  /** Commas separate, and do nothing else: the tokens of two texts with a comma between are those of
      the one and those of the other. */
  lemma {:induction false} TokensSplit(a: Text, b: Text)
    ensures Tokens(a + ([COMMA] + b)) == Tokens(a) + Tokens(b)
    decreases |a|
  {
    hide Tokens;
    var s := a + ([COMMA] + b);
    if a == [] {
      assert s == [COMMA] + b;
      SkipComma(b);
      TokensOfOne(a);
    } else if a[0] == COMMA {
      assert a == [COMMA] + a[1..] && s == [COMMA] + (a[1..] + ([COMMA] + b));
      SkipComma(a[1..]);
      SkipComma(a[1..] + ([COMMA] + b));
      TokensSplit(a[1..], b);
    } else {
      var n := TokenEnd(a);
      TokenEndAppend(a, [COMMA] + b);
      FirstToken(a);
      FirstToken(s);
      hide TokenEnd;
      assert s[..n] == a[..n] && s[n..] == a[n..] + ([COMMA] + b);
      TokensSplit(a[n..], b);
    }
  }

  /** A text without a comma is one token, or none when it is empty. */
  lemma TokensOfOne(t: Text)
    requires COMMA !in t
    ensures Tokens(t) == if t == [] then [] else [t]
  {
    if t != [] {
      assert t[0] in t;
      assert TokenEnd(t) == |t| && t[..|t|] == t && t[|t|..] == [];
    }
  }

  function LowByte(n: nat): byte {
    (n % 256) as byte
  }

  /** The values of the first `max` tokens. */
  function Parsed(s: Text, max: nat): seq<byte> {
    var tokens := Tokens(s);
    seq(Min(|tokens|, max), i requires 0 <= i < Min(|tokens|, max) => LowByte(HexVal(tokens[i])))
  }

  /** The next token and what is left behind it; None at the end. */
  method StrTok(s: Text) returns (token: Option<Text>, rest: Text)
    ensures Tokens(s) == if token.Some? then [token.value] + Tokens(rest) else []
    ensures token.Some? ==> |rest| < |s|
  {
    rest := s;
    while rest != [] && rest[0] == COMMA
      invariant Tokens(rest) == Tokens(s) && |rest| <= |s|
    {
      rest := rest[1..];
    }
    if rest == [] {
      return None, rest;
    }
    var n := 1;
    while n < |rest| && rest[n] != COMMA
      invariant 1 <= n <= |rest|
      invariant forall i :: 0 <= i < n ==> rest[i] != COMMA
    {
      n := n + 1;
    }
    assert TokenEnd(rest) == n;
    token, rest := Some(rest[..n]), rest[n..];
  }

  lemma PendingIs(token: Option<Text>, rest: Text)
    ensures Pending(token, rest) == if token.Some? then [token.value] + Tokens(rest) else []
  {
  }

  method ParseStringToHex(input: Text, max: nat) returns (data: seq<byte>)
    requires max > 0
    ensures data == Parsed(input, max)
  {
    hide HexVal; hide TokenEnd; hide LowByte; hide Tokens; hide Pending;
    ghost var tokens := Tokens(input);
    data := [];
    var token, rest := StrTok(input);
    PendingIs(token, rest);
    while token.Some?
      invariant |data| < max && |data| <= |tokens|
      invariant Pending(token, rest) == tokens[|data|..]
      invariant forall i :: 0 <= i < |data| ==> data[i] == LowByte(HexVal(tokens[i]))
      decreases |tokens| - |data|
    {
      PendingIs(token, rest);
      assert token.value == Pending(token, rest)[0] == tokens[|data|];
      assert Tokens(rest) == Pending(token, rest)[1..] == tokens[|data| + 1..];
      var value := HexOfToken(token.value);
      data := data + [LowByte(value)];
      token, rest := StrTok(rest);
      PendingIs(token, rest);
      if |data| >= max {
        break;
      }
    }
    PendingIs(token, rest);
    assert |data| == Min(|tokens|, max);
  }

  method HexOfToken(token: Text) returns (value: nat)
    ensures value == HexVal(token)
  {
    var copy := new byte[|token|](i requires 0 <= i < |token| => token[i]);
    assert copy[..] == token;
    value := HexStr2Val(copy);
  }

  /** Tokens not yet stored. */
  ghost function Pending(token: Option<Text>, rest: Text): seq<Text> {
    if token.Some? then [token.value] + Tokens(rest) else []
  }

  // ---------------------------------------------------------------------
  // Printing a table of presets, and reading it back.
  // ---------------------------------------------------------------------

  type Preset = seq<byte>

  function HexChar(n: nat): byte
    requires n < 16
  {
    if n < 10 then 48 + n else 97 + (n - 10)
  }

  /** printf of one byte with %02x. */
  function PrintByte(b: byte): Text {
    [HexChar(b / 16), HexChar(b % 16)]
  }

  /** The bytes after the first, each behind a comma. */
  function RowTail(q: Preset): Text {
    if q == [] then [] else [COMMA] + PrintByte(q[0]) + RowTail(q[1..])
  }

  /** One printed preset, without its quotes. */
  function PrintRow(p: Preset): Text
    requires p != []
  {
    PrintByte(p[0]) + RowTail(p[1..])
  }

  function PrintTable(presets: seq<Preset>): Text
    requires forall i :: 0 <= i < |presets| ==> presets[i] != []
  {
    if presets == [] then [] else
    [QUOTE] + PrintRow(presets[0]) + [QUOTE] +
    (if |presets| == 1 then [NEWLINE] else [COMMA, NEWLINE] + PrintTable(presets[1..]))
  }

  /** The inner loop: one preset behind its opening quote. */
  method PrintPreset(p: Preset, before: Text) returns (code: Text)
    requires |p| == PTZ_POS_SIZE
    ensures code == before + [QUOTE] + PrintRow(p)
  {
    hide PrintByte;
    code := before + ([QUOTE] + PrintByte(p[0]));
    for j := 1 to PTZ_POS_SIZE
      invariant code + RowTail(p[j..]) == before + [QUOTE] + PrintRow(p)
    {
      assert p[j..][1..] == p[j + 1..];
      code := code + ([COMMA] + PrintByte(p[j]));
    }
    assert RowTail(p[PTZ_POS_SIZE..]) == [];
  }

  lemma PrintNext(presets: seq<Preset>, i: nat)
    requires i < |presets| && forall k :: 0 <= k < |presets| ==> presets[k] != []
    ensures PrintTable(presets[i..]) == [QUOTE] + PrintRow(presets[i])
            + (if i == |presets| - 1 then [QUOTE, NEWLINE] else [QUOTE, COMMA, NEWLINE]) + PrintTable(presets[i + 1..])
  {
    hide PrintRow;
    assert presets[i..][1..] == presets[i + 1..];
  }

  lemma PrintNothing(presets: seq<Preset>)
    ensures PrintTable(presets[|presets|..]) == []
  {
  }

  /** The two nested loops over a preset table. */
  method PrintPresets(presets: seq<Preset>) returns (code: Text)
    requires forall i :: 0 <= i < |presets| ==> |presets[i]| == PTZ_POS_SIZE
    ensures code == PrintTable(presets)
  {
    hide PrintRow; hide PrintTable;
    code := [];
    var n := |presets|;
    assert presets[0..] == presets;
    for i := 0 to n
      invariant code + PrintTable(presets[i..]) == PrintTable(presets)
    {
      PrintNext(presets, i);
      code := PrintPreset(presets[i], code);
      if i < n - 1 {
        code := code + [QUOTE, COMMA, NEWLINE];
      } else {
        code := code + [QUOTE, NEWLINE];
      }
    }
    PrintNothing(presets);
  }

  /** Bytes up to the next quote. */
  function QuoteEnd(s: Text): (n: nat)
    ensures n <= |s|
    ensures forall i :: 0 <= i < n ==> s[i] != QUOTE
    ensures n < |s| ==> s[n] == QUOTE
  {
    if s == [] || s[0] == QUOTE then 0 else 1 + QuoteEnd(s[1..])
  }

  // ---- reading a JSON array body of plain strings (section 5 of RFC 8259) ----

  predicate Blank(c: byte) {
    c == 32 || c == 9 || c == NEWLINE || c == 13
  }

  /** The text behind its leading white space. */
  function SkipBlanks(s: Text): (r: Text)
    ensures |r| <= |s|
    ensures r != [] ==> !Blank(r[0])
  {
    if s == [] || !Blank(s[0]) then s else SkipBlanks(s[1..])
  }

  /** Characters that stand for themselves in a string. */
  predicate Plain(s: Text) {
    forall i :: 0 <= i < |s| ==> s[i] >= 32 && s[i] != QUOTE && s[i] != BACKSLASH
  }

  /** At least one string, white space around each, exactly one comma between two, and nothing else.
      Strings with escapes are not read. */
  function ReadItems(s: Text): Option<seq<Text>>
    decreases |s|
  {
    var t := SkipBlanks(s);
    if t == [] || t[0] != QUOTE then None else
    var n := QuoteEnd(t[1..]);
    if n == |t| - 1 || !Plain(t[1..][..n]) then None else
    var rest := SkipBlanks(t[1..][n + 1..]);
    if rest == [] then Some([t[1..][..n]])
    else if rest[0] != COMMA then None
    else match ReadItems(rest[1..])
      case None => None
      case Some(items) => Some([t[1..][..n]] + items)
  }

  /** What stands between the brackets of an array of strings; None when it is no such thing. */
  function ReadArray(s: Text): Option<seq<Text>> {
    if SkipBlanks(s) == [] then Some([]) else ReadItems(s)
  }

  lemma QuoteEndIs(pre: Text, rest: Text)
    requires Plain(pre)
    ensures QuoteEnd(pre + ([QUOTE] + rest)) == |pre|
    ensures (pre + ([QUOTE] + rest))[..|pre|] == pre
    ensures (pre + ([QUOTE] + rest))[|pre| + 1..] == rest
  {
    var s := pre + ([QUOTE] + rest);
    assert s[|pre|] == QUOTE;
  }

  lemma SkipBlank(c: byte, s: Text)
    requires Blank(c)
    ensures SkipBlanks([c] + s) == SkipBlanks(s)
  {
    assert ([c] + s)[1..] == s;
  }

  lemma SkipNothing(c: byte, s: Text)
    requires !Blank(c)
    ensures SkipBlanks([c] + s) == [c] + s
  {
  }

  /** One string and what comes behind it. */
  lemma ReadStep(body: Text, rest: Text)
    requires Plain(body)
    ensures ReadItems([QUOTE] + (body + ([QUOTE] + rest))) ==
            var behind := SkipBlanks(rest);
            if behind == [] then Some([body])
            else if behind[0] != COMMA then None
            else match ReadItems(behind[1..]) case None => None case Some(items) => Some([body] + items)
  {
    hide QuoteEnd; hide SkipBlanks; hide Plain;
    var t := body + ([QUOTE] + rest);
    SkipNothing(QUOTE, t);
    QuoteEndIs(body, rest);
    assert ([QUOTE] + t)[1..] == t;
  }

  lemma ReadBlank(c: byte, s: Text)
    requires Blank(c)
    ensures ReadItems([c] + s) == ReadItems(s)
  {
    hide SkipBlanks; hide QuoteEnd; hide Plain;
    SkipBlank(c, s);
  }

  lemma {:induction false} TailIsPlain(q: Preset)
    ensures Plain(RowTail(q)) && |RowTail(q)| == 3 * |q|
  {
    if q != [] {
      TailIsPlain(q[1..]);
    }
  }

  lemma RowIsPlain(p: Preset)
    requires p != []
    ensures Plain(PrintRow(p)) && |PrintRow(p)| == 3 * |p| - 1
  {
    TailIsPlain(p[1..]);
  }

  /** The printed table is an array of as many strings as it has rows, the rows in order. */
  lemma {:induction false} TableIsArray(presets: seq<Preset>)
    requires presets != [] && forall i :: 0 <= i < |presets| ==> presets[i] != []
    ensures var lines := ReadItems(PrintTable(presets));
            lines.Some? && |lines.value| == |presets|
            && forall i :: 0 <= i < |presets| ==> lines.value[i] == PrintRow(presets[i])
  {
    hide PrintRow; hide ReadItems; hide SkipBlanks;
    var row := PrintRow(presets[0]);
    RowIsPlain(presets[0]);
    if |presets| == 1 {
      assert PrintTable(presets) == [QUOTE] + (row + ([QUOTE] + [NEWLINE]));
      ReadStep(row, [NEWLINE]);
      SkipBlank(NEWLINE, []);
      SkipNone();
      assert [NEWLINE] + [] == [NEWLINE];
    } else {
      var rest := PrintTable(presets[1..]);
      assert PrintTable(presets) == [QUOTE] + (row + ([QUOTE] + ([COMMA] + ([NEWLINE] + rest))));
      ReadStep(row, [COMMA] + ([NEWLINE] + rest));
      SkipNothing(COMMA, [NEWLINE] + rest);
      ReadBlank(NEWLINE, rest);
      assert ([COMMA] + ([NEWLINE] + rest))[1..] == [NEWLINE] + rest;
      TableIsArray(presets[1..]);
    }
  }

  lemma SkipNone()
    ensures SkipBlanks([]) == []
  {
  }

  lemma ByteRoundTrip(b: byte)
    ensures HexVal(PrintByte(b)) == b
  {
    var s := PrintByte(b);
    HexCharDigit(b / 16);
    HexCharDigit(b % 16);
    hide Digit; hide HexChar;
    assert Front(s) == [s[0]] && Front([s[0]]) == [];
    assert HexVal([s[0]]) == b / 16;
  }

  lemma HexCharDigit(n: nat)
    requires n < 16
    ensures Digit(HexChar(n)) == n
  {
  }

  lemma TokensStep(b: byte, rest: Text)
    requires rest == [] || rest[0] == COMMA
    ensures Tokens(PrintByte(b) + rest) == [PrintByte(b)] + Tokens(rest)
  {
    var t := PrintByte(b);
    var s := t + rest;
    assert s[0] == t[0] && s[1] == t[1] && s[2..] == rest && s[..2] == t;
    assert s[1..][1..] == rest && s[1..][0] == t[1];
    assert TokenEnd(s) == 2;
  }

  lemma TailStep(q: Preset)
    requires q != []
    ensures Tokens(RowTail(q)) == [PrintByte(q[0])] + Tokens(RowTail(q[1..]))
  {
    hide PrintByte; hide Tokens;
    var rest := RowTail(q[1..]);
    TokensStep(q[0], rest);
    SkipComma(PrintByte(q[0]) + rest);
    assert RowTail(q) == [COMMA] + (PrintByte(q[0]) + rest);
  }

  /** The values after the first come back in order. */
  lemma LowByteOf(b: byte)
    ensures LowByte(b) == b
  {
  }

  lemma {:induction false} TailRoundTrip(q: Preset)
    ensures var tokens := Tokens(RowTail(q));
            |tokens| == |q| && forall i :: 0 <= i < |q| ==> LowByte(HexVal(tokens[i])) == q[i]
  {
    if q != [] {
      hide PrintByte; hide HexVal; hide Tokens; hide RowTail; hide LowByte;
      TailStep(q);
      TailRoundTrip(q[1..]);
      var tokens, rest := Tokens(RowTail(q)), Tokens(RowTail(q[1..]));
      forall i | 0 <= i < |q|
        ensures LowByte(HexVal(tokens[i])) == q[i]
      {
        if i == 0 {
          ByteRoundTrip(q[0]);
          LowByteOf(q[0]);
        } else {
          assert tokens[i] == rest[i - 1] && q[i] == q[1..][i - 1];
        }
      }
    }
  }

  lemma RowRoundTrip(p: Preset, max: nat)
    requires p != [] && |p| <= max
    ensures Parsed(PrintRow(p), max) == p
  {
    hide PrintByte; hide HexVal; hide TokenEnd; hide Tokens;
    TailRoundTrip(p[1..]);
    ByteRoundTrip(p[0]);
    TokensStep(p[0], RowTail(p[1..]));
  }

  /** The printed table is what stands between the brackets of a JSON array of strings, and reading
      every string back, with the buffer of PTZ_POS_SIZE + 1 bytes that the loader uses, gives the
      same table. */
  lemma TableRoundTrip(presets: seq<Preset>)
    requires forall i :: 0 <= i < |presets| ==> |presets[i]| == PTZ_POS_SIZE
    ensures var lines := ReadArray(PrintTable(presets));
            lines.Some? && |lines.value| == |presets|
            && forall i :: 0 <= i < |presets| ==> Parsed(lines.value[i], PTZ_POS_SIZE + 1) == presets[i]
  {
    hide PrintRow; hide Parsed; hide ReadItems; hide SkipBlanks;
    SkipNone();
    if presets != [] {
      TableIsArray(presets);
      ItemsAreNoBlank(PrintTable(presets));
      forall i | 0 <= i < |presets|
        ensures Parsed(PrintRow(presets[i]), PTZ_POS_SIZE + 1) == presets[i]
      {
        RowRoundTrip(presets[i], PTZ_POS_SIZE + 1);
      }
    }
  }

  lemma ItemsAreNoBlank(s: Text)
    requires ReadItems(s).Some?
    ensures SkipBlanks(s) != []
  {
    hide SkipBlanks; hide QuoteEnd; hide Plain;
  }

  /** The printed table and its terminator fit the buffer that it is built in. */
  lemma {:induction false} TableFits(presets: seq<Preset>)
    requires presets != [] && forall i :: 0 <= i < |presets| ==> |presets[i]| == PTZ_POS_SIZE
    ensures |PrintTable(presets)| == 36 * |presets| - 1
    ensures |PrintTable(presets)| + 1 <= (|presets| + 2) * PTZ_POS_SIZE * 4
  {
    hide PrintRow;
    RowIsPlain(presets[0]);
    if |presets| > 1 {
      TableFits(presets[1..]);
    }
  }
}
