/** Quoting of binary ids inside the row-key regular expression
    (`StorageQueryHbase.addId`), together with the meaning the
    `java.util.regex` pattern syntax gives to the text it produces.

    The builder writes every id byte as the char with the same code,
    between `\Q` and `\E`. Inside such a quote only `\E` ends the quote;
    outside it, `\\` stands for a backslash, `E` for itself and `\Q`
    opens a new quote. An id holding a backslash followed by `E` would end
    the quote too early, so after that `E` the builder writes `\\E\Q`: a
    literal backslash, a literal `E` (re-supplying the pair that the early
    `\E` swallowed) and a fresh quote. */
module RegexQuote {
  import opened Wrappers
  import opened Bytes

  const Backslash: byte := 92  // '\\'
  const LetterE: byte := 69    // 'E'

  /** The chars `(char) (b & 0xFF)` of an id, in order. */
  function Chars(id: seq<byte>): (s: string)
    ensures |s| == |id|
    ensures forall i :: 0 <= i < |id| ==> s[i] == id[i] as char
  {
    seq(|id|, i requires 0 <= i < |id| => id[i] as char)
  }

  // ---------------------------------------------------------------------
  // What a run of quoted literal text means to java.util.regex.
  // ---------------------------------------------------------------------

  function Prepend(c: char, r: Option<string>): Option<string> {
    match r
    case Some(s) => Some([c] + s)
    case None => None
  }

  /** The literal text denoted by `s` read from inside a `\Q` quote, up to
      the end of `s`, which must be outside any quote. */
  function InQuote(s: string): Option<string>
    decreases |s|
  {
    if s == [] then None  // the quote is never closed
    else if |s| >= 2 && s[0] == '\\' && s[1] == 'E' then OutQuote(s[2..])
    else Prepend(s[0], InQuote(s[1..]))
  }

  /** The literal text denoted by `s` read from outside any quote, where
      only `\Q`, `\\` and `E` may occur; `None` for any other syntax. */
  function OutQuote(s: string): Option<string>
    decreases |s|
  {
    if s == [] then Some([])
    else if |s| >= 2 && s[0] == '\\' && s[1] == 'Q' then InQuote(s[2..])
    else if |s| >= 2 && s[0] == '\\' && s[1] == '\\' then Prepend('\\', OutQuote(s[2..]))
    else if s[0] == 'E' then Prepend('E', OutQuote(s[1..]))
    else None
  }

  // ---------------------------------------------------------------------
  // The quoting itself.
  // ---------------------------------------------------------------------

  /** The text `addId` appends for `id`, given whether the char written just
      before `id` was an unescaped backslash. The flag is cleared once the
      re-quote is written, since the char written last is then `Q`. */
  function Quote(id: seq<byte>, backslash: bool): string
    decreases |id|
  {
    if id == [] then "\\E"
    else if id[0] == LetterE && backslash then "E" + "\\\\E\\Q" + Quote(id[1..], false)
    else [id[0] as char] + Quote(id[1..], id[0] == Backslash)
  }

  function QuoteId(id: seq<byte>): string {
    Quote(id, false)
  }

  /** Inside a quote, the text written for `id` denotes exactly the bytes of
      `id` and closes the quote, whatever the id bytes are. */
  lemma {:induction false} QuoteDenotes(id: seq<byte>)
    ensures InQuote(Quote(id, false)) == Some(Chars(id))
    decreases |id|, 0
  {
    if id == [] {
      CloseQuote([]);
      assert "\\E" + [] == "\\E";
    } else {
      var c := id[0] as char;
      assert Chars(id) == [c] + Chars(id[1..]);
      if id[0] == Backslash {
        assert Quote(id, false) == "\\" + Quote(id[1..], true);
        QuoteDenotesAfterBackslash(id[1..]);
      } else {
        QuotedChar(c, Quote(id[1..], false));
        QuoteDenotes(id[1..]);
      }
    }
  }

  /** The same, when the char written just before `id` is a backslash: the
      backslash belongs to the literal too. */
  lemma {:induction false} QuoteDenotesAfterBackslash(id: seq<byte>)
    ensures InQuote("\\" + Quote(id, true)) == Some("\\" + Chars(id))
    decreases |id|, 1
  {
    if id == [] {
      QuotedChar('\\', "\\E");
      CloseQuote([]);
      assert "\\E" + [] == "\\E";
    } else {
      var c := id[0] as char;
      assert Chars(id) == [c] + Chars(id[1..]);
      if id[0] == LetterE {
        var rest := Quote(id[1..], false);
        assert "\\" + Quote(id, true) == "\\E" + ("\\\\" + ("E" + ("\\Q" + rest)));
        CloseQuote("\\\\" + ("E" + ("\\Q" + rest)));
        EscapedBackslash("E" + ("\\Q" + rest));
        LiteralE("\\Q" + rest);
        OpenQuote(rest);
        QuoteDenotes(id[1..]);
        assert "\\" + Chars(id) == ['\\'] + (['E'] + Chars(id[1..]));
      } else {
        var t := [c] + Quote(id[1..], id[0] == Backslash);
        assert "\\" + Quote(id, true) == ['\\'] + t;
        QuotedChar('\\', t);
        if id[0] == Backslash {
          assert t == "\\" + Quote(id[1..], true);
          QuoteDenotesAfterBackslash(id[1..]);
        } else {
          QuotedChar(c, Quote(id[1..], false));
          QuoteDenotes(id[1..]);
        }
      }
    }
  }

  /** `"\\Q"` followed by the text `addId` appends is a closed literal that
      matches exactly the bytes of the id. */
  lemma QuotedIdRoundTrip(id: seq<byte>)
    ensures OutQuote("\\Q" + QuoteId(id)) == Some(Chars(id))
  {
    assert ("\\Q" + QuoteId(id))[2..] == QuoteId(id);
    QuoteDenotes(id);
  }

  /** `addId`: appends `id`, quoted, followed by `\E`, to `buf`. */
  method AddId(buf: string, id: seq<byte>) returns (out: string)
    ensures out == buf + QuoteId(id)
    ensures OutQuote("\\Q" + out[|buf|..]) == Some(Chars(id))
  {
    out := buf;
    var backslash := false;
    var i := 0;
    while i < |id|
      invariant 0 <= i <= |id|
      invariant out + Quote(id[i..], backslash) == buf + QuoteId(id)
    {
      var b := id[i];
      assert id[i..][1..] == id[i + 1..];
      out := out + [b as char];
      if b == LetterE && backslash {
        // The `\E` just written ended the quote: write a literal `\E` and
        // start quoting again.
        out := out + "\\\\E\\Q";
        backslash := false;
      } else {
        backslash := b == Backslash;
      }
      i := i + 1;
    }
    assert id[i..] == [];
    out := out + "\\E";
    assert out[|buf|..] == QuoteId(id);
    QuotedIdRoundTrip(id);
  }

  // ---------------------------------------------------------------------
  // The loop as the repository has it.
  // ---------------------------------------------------------------------

  /** `addId` as written: after the re-quote the flag is left as it was,
      so a second `E` right after a quoted `\E` is taken for another `\E`. */
  function QuoteAsWritten(id: seq<byte>, backslash: bool): string
    decreases |id|
  {
    if id == [] then "\\E"
    else if id[0] == LetterE && backslash then "E" + "\\\\E\\Q" + QuoteAsWritten(id[1..], backslash)
    else [id[0] as char] + QuoteAsWritten(id[1..], id[0] == Backslash)
  }

  /** What `addId` as written appends for `id`. */
  function QuoteIdAsWritten(id: seq<byte>): string {
    QuoteAsWritten(id, false)
  }

  /** `addId` as the repository has it: the flag keeps its value after the
      re-quote. On an id without a backslash the text it appends, after
      `\Q`, denotes exactly the id's bytes. */
  method AddIdAsWritten(buf: string, id: seq<byte>) returns (out: string)
    ensures out == buf + QuoteIdAsWritten(id)
    ensures (forall i :: 0 <= i < |id| ==> id[i] != Backslash) ==>
      OutQuote("\\Q" + out[|buf|..]) == Some(Chars(id))
  {
    out := buf;
    var backslash := false;
    var i := 0;
    while i < |id|
      invariant 0 <= i <= |id|
      invariant out + QuoteAsWritten(id[i..], backslash) == buf + QuoteIdAsWritten(id)
    {
      var b := id[i];
      assert id[i..][1..] == id[i + 1..];
      out := out + [b as char];
      if b == LetterE && backslash {
        out := out + "\\\\E\\Q";
      } else {
        backslash := b == Backslash;
      }
      i := i + 1;
    }
    assert id[i..] == [];
    out := out + "\\E";
    assert out[|buf|..] == QuoteIdAsWritten(id);
    if forall i :: 0 <= i < |id| ==> id[i] != Backslash {
      QuoteAsWrittenAgreesWithoutBackslash(id);
      QuotedIdRoundTrip(id);
    }
  }

  /** The two agree on every id without a backslash. */
  lemma {:induction false} QuoteAsWrittenAgreesWithoutBackslash(id: seq<byte>)
    requires forall i :: 0 <= i < |id| ==> id[i] != Backslash
    ensures QuoteAsWritten(id, false) == Quote(id, false)
    decreases |id|
  {
    if id != [] {
      QuoteAsWrittenAgreesWithoutBackslash(id[1..]);
    }
  }

  /** The id bytes `\EE` come out as a literal with one backslash too many. */
  lemma QuoteAsWrittenAddsBackslash()
    ensures OutQuote("\\Q" + QuoteAsWritten([Backslash, LetterE, LetterE], false)) == Some("\\EE\\")
    ensures Chars([Backslash, LetterE, LetterE]) == "\\EE"
  {
    var id: seq<byte> := [Backslash, LetterE, LetterE];
    AsWrittenText();
    ReadRequoted();
    assert "\\E" + RequotedTail() == "\\E\\\\E\\QE\\\\E\\Q\\E";
    assert Chars(id) == "\\EE";
  }

  /** What `addId` as written appends for `\EE`. */
  lemma AsWrittenText()
    ensures QuoteAsWritten([Backslash, LetterE, LetterE], false) == "\\E\\\\E\\QE\\\\E\\Q\\E"
  {
    var e1: seq<byte> := [LetterE];
    var e2: seq<byte> := [LetterE, LetterE];
    var id: seq<byte> := [Backslash, LetterE, LetterE];
    assert e1[1..] == [] && e2[1..] == e1 && id[1..] == e2;
    assert QuoteAsWritten(e1, true) == "E\\\\E\\Q\\E";
    assert QuoteAsWritten(e2, true) == "E\\\\E\\QE\\\\E\\Q\\E";
  }

  /** The text after the first `\E` of the as-written quoting of `\EE`. */
  function RequotedTail(): string {
    "\\\\" + "E" + "\\Q" + ("E" + ("\\" + ("\\E" + ("\\Q" + "\\E"))))
  }

  lemma ReadRequoted()
    ensures OutQuote("\\Q" + ("\\E" + RequotedTail())) == Some("\\EE\\")
  {
    var t1 := "E" + ("\\" + ("\\E" + ("\\Q" + "\\E")));
    ReadQuotedTail();
    OpenQuote(t1);
    assert "E" + "\\Q" + t1 == "E" + ("\\Q" + t1);
    LiteralE("\\Q" + t1);
    assert RequotedTail() == "\\\\" + ("E" + "\\Q" + t1);
    EscapedBackslash("E" + "\\Q" + t1);
    assert ['E'] + "E\\" == "EE\\";
    assert ['\\'] + "EE\\" == "\\EE\\";
    CloseQuote(RequotedTail());
    OpenQuote("\\E" + RequotedTail());
  }

  lemma ReadQuotedTail()
    ensures InQuote("E" + ("\\" + ("\\E" + ("\\Q" + "\\E")))) == Some("E\\")
  {
    var l1 := "\\E" + ("\\Q" + "\\E");
    OpenQuote("\\E");
    CloseQuote([]);
    CloseQuote("\\Q" + "\\E");
    var none: string := [];
    assert InQuote(l1) == Some(none);
    QuotedChar('\\', l1);
    assert "\\" + l1 == ['\\'] + l1;
    assert ['\\'] + none == "\\";
    var l2 := "\\" + l1;
    assert InQuote(l2) == Some("\\");
    QuotedChar('E', l2);
    assert "E" + l2 == ['E'] + l2;
    assert ['E'] + "\\" == "E\\";
  }

  // One step of the pattern engine's reading, each.

  lemma OpenQuote(x: string)
    ensures OutQuote("\\Q" + x) == InQuote(x)
  {
    assert ("\\Q" + x)[2..] == x;
  }

  lemma CloseQuote(x: string)
    ensures InQuote("\\E" + x) == OutQuote(x)
  {
    assert ("\\E" + x)[2..] == x;
  }

  lemma EscapedBackslash(x: string)
    ensures OutQuote("\\\\" + x) == Prepend('\\', OutQuote(x))
  {
    assert ("\\\\" + x)[2..] == x;
  }

  lemma LiteralE(x: string)
    ensures OutQuote("E" + x) == Prepend('E', OutQuote(x))
  {
    assert ("E" + x)[1..] == x;
  }

  lemma QuotedChar(c: char, x: string)
    requires c != '\\' || x == [] || x[0] != 'E'
    ensures InQuote([c] + x) == Prepend(c, InQuote(x))
  {
    assert ([c] + x)[1..] == x;
  }
}
