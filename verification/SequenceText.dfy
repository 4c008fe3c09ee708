/** The tour sequence as text: let in by its numbers, and printed into the settings file as it came. */
module SequenceText {
  import opened Common
  import Presets
  import Tour
  import JsonEscape

  type Text = seq<byte>

  const BUFFER: nat := Tour.MAX_PTZ_PRESET + 8

  /** auto_move_ptz takes the text for a sequence. */
  ghost predicate LetIn(text: Text, configured: seq<bool>)
    requires |configured| == Tour.MAX_PTZ_PRESET
  {
    Tour.ValidSequence(Presets.Parsed(text, BUFFER), configured)
  }

  /** The parsing and the checks of auto_move_ptz, on the text of a command. */
  method AutoMovePtz(store: Tour.Store, text: Text) returns (ok: bool)
    requires store.moveSeq.Length == Tour.MAX_PTZ_PRESET + 3 && store.configured.Length == Tour.MAX_PTZ_PRESET
    modifies store.moveSeq
    ensures ok <==> LetIn(text, store.configured[..])
    ensures !ok ==> store.moveSeq[..] == old(store.moveSeq[..])
  {
    var data := Presets.ParseStringToHex(text, BUFFER);
    ok := store.LoadSequence(data);
  }

  /** A character that stands for itself between the quotes of a JSON string. */
  predicate Plain(c: byte) {
    c >= 32 && c != JsonEscape.QUOTE && c != JsonEscape.BACKSLASH
  }

  /** Decoding never makes a text longer, and a backslash makes it shorter. */
  lemma {:induction false} DecodedSize(text: Text)
    ensures var r := JsonEscape.Unescape(text);
            r.Some? ==> |r.value| <= |text| && (text != [] && text[0] == JsonEscape.BACKSLASH ==> |r.value| < |text|)
  {
    if |text| >= 2 && text[0] == JsonEscape.BACKSLASH {
      DecodedSize(text[2..]);
    } else if text != [] {
      DecodedSize(text[1..]);
    }
  }

  /** The stored text is printed unescaped. It is read back as it was if and only if it has no quote,
      no backslash and no control character. */
  lemma {:induction false} PrintedReadsBack(text: Text)
    ensures JsonEscape.Legal(text) && JsonEscape.Unescape(text) == Some(text)
            <==> forall i :: 0 <= i < |text| ==> Plain(text[i])
  {
    if text != [] {
      DecodedSize(text);
      PrintedReadsBack(text[1..]);
      assert [text[0]] + text[1..] == text;
      FirstAndRest(text);
    }
  }

  lemma FirstAndRest(text: Text)
    requires text != []
    ensures (forall i :: 0 <= i < |text| ==> Plain(text[i]))
            <==> Plain(text[0]) && forall i :: 0 <= i < |text[1..]| ==> Plain(text[1..][i])
  {
    assert forall i :: 0 < i < |text| ==> text[i] == text[1..][i - 1];
  }

  const WITH_QUOTE: Text := [34, 44, 49, 44, 102, 102, 44, 48, 53]

  /** A text with a quote that is let in: hex_str2val reads the quote as 2, so that the sequence names
      presets 2 and 1. Printed between quotes it is not legal, and the settings file no JSON. */
  lemma QuoteIsLetIn(configured: seq<bool>)
    requires |configured| == Tour.MAX_PTZ_PRESET && configured[1] && configured[2]
    ensures LetIn(WITH_QUOTE, configured) && !JsonEscape.Legal(WITH_QUOTE)
  {
    hide Presets.Tokens; hide Presets.HexVal;
    assert Presets.Tokens(WITH_QUOTE) == [[34], [49], [102, 102], [48, 53]] by {
      assert WITH_QUOTE == [34] + ([44] + ([49] + ([44] + ([102, 102] + ([44] + [48, 53])))));
      Presets.TokensSplit([34], [49] + ([44] + ([102, 102] + ([44] + [48, 53]))));
      Presets.TokensSplit([49], [102, 102] + ([44] + [48, 53]));
      Presets.TokensSplit([102, 102], [48, 53]);
      Presets.TokensOfOne([34]);
      Presets.TokensOfOne([49]);
      Presets.TokensOfOne([102, 102]);
      Presets.TokensOfOne([48, 53]);
    }
    Values();
    assert Presets.Parsed(WITH_QUOTE, BUFFER) == [2, 1, 255, 5];
  }

  lemma Values()
    ensures Presets.HexVal([34]) == 2 && Presets.HexVal([49]) == 1
    ensures Presets.HexVal([102, 102]) == 255 && Presets.HexVal([48, 53]) == 5
  {
    assert Front<byte>([34]) == [] && Front<byte>([49]) == [];
    assert Front<byte>([102, 102]) == [102] && Front<byte>([102]) == [];
    assert Front<byte>([48, 53]) == [48] && Front<byte>([48]) == [];
  }
}
