/** The ledger file of an index: one line per term, the word prefixed with
    ';' when the term is checked. `Encode` is what `Index.write_contents`
    writes, `Decode` what `Index.renew_contents` reads back. */
module Ledger {
  import opened Text
  import opened Selection
  import opened Words

  /** The value a `Term` holds: its word and its checked flag. */
  datatype Entry = Entry(word: string, checked: bool)

  function WordsOf(es: seq<Entry>): (ws: seq<string>)
    ensures |ws| == |es|
    ensures forall k :: 0 <= k < |es| ==> ws[k] == es[k].word
  {
    seq(|es|, k requires 0 <= k < |es| => es[k].word)
  }

  /** New entries for the given words, all checked. */
  function CheckedEntries(ws: seq<string>): (es: seq<Entry>)
    ensures |es| == |ws|
    ensures forall k :: 0 <= k < |ws| ==> es[k] == Entry(ws[k], true)
  {
    seq(|ws|, k requires 0 <= k < |ws| => Entry(ws[k], true))
  }

  /** The line written for one term: ';' if checked, the word, then "\n". */
  function LineOf(e: Entry): string
  {
    (if e.checked then ";" else "") + e.word + "\n"
  }

  /** The line for a term ends in its only "\n" (when the word has none) and
      starts with ';' exactly when the term is checked (when the word does not
      start with one). */
  lemma LineOfShape(e: Entry)
    ensures var r := LineOf(e); r != [] && r[|r| - 1] == '\n'
    ensures '\n' !in e.word ==> '\n' !in LineOf(e)[..|LineOf(e)| - 1]
    ensures e.checked ==> LineOf(e)[0] == ';'
    ensures !e.checked && (e.word == [] || e.word[0] != ';') ==> LineOf(e)[0] != ';'
  {
    assert LineOf(e)[..|LineOf(e)| - 1] == (if e.checked then ";" else "") + e.word;
  }

  /** `write_contents`' text: one line per term, in order. */
  function Encode(es: seq<Entry>): string
  {
    if es == [] then [] else LineOf(es[0]) + Encode(es[1..])
  }

  /** A written ledger is empty exactly when there are no terms, and
      otherwise ends in a line break. */
  lemma {:induction false} EncodeShape(es: seq<Entry>)
    ensures Encode(es) == [] <==> es == []
    ensures Encode(es) != [] ==> Encode(es)[|Encode(es)| - 1] == '\n'
  {
    if es != [] {
      LineOfShape(es[0]);
      EncodeShape(es[1..]);
    }
  }

  /** Writing line by line: the text grows by one encoded line per term. */
  lemma {:induction false} EncodeSnoc(es: seq<Entry>, e: Entry)
    ensures Encode(es + [e]) == Encode(es) + LineOf(e)
  {
    if es == [] {
      assert [e][1..] == [];
    } else {
      assert (es + [e])[1..] == es[1..] + [e];
      EncodeSnoc(es[1..], e);
    }
  }

  /** One line read back: the word is the line without any "\n" and without
      its leading ';'s, and the term is checked exactly when the line starts
      with ';' (the `Term` constructor's `unchecked` argument lands in
      `checked`). */
  function ParseLine(line: string): (e: Entry)
    requires line != []
    ensures e.checked <==> line[0] == ';'
    ensures '\n' !in e.word
    ensures e.word == [] || e.word[0] != ';'
  {
    RemoveSpec(line, '\n');
    Entry(LStrip(Remove(line, '\n'), {';'}), line[0] == ';')
  }

  function ParseLines(lines: seq<string>): (es: seq<Entry>)
    requires forall k :: 0 <= k < |lines| ==> lines[k] != []
    ensures |es| == |lines|
    ensures forall k :: 0 <= k < |lines| ==> es[k] == ParseLine(lines[k])
  {
    seq(|lines|, k requires 0 <= k < |lines| => ParseLine(lines[k]))
  }

  /** `renew_contents`: every line of the file (read in text mode) becomes a
      term, blank lines included, and the terms are stably sorted by word. */
  function Decode(text: string): (es: seq<Entry>)
    ensures |es| == |Lines(Universal(text))|
  {
    var parsed := ParseLines(Lines(Universal(text)));
    LessStrictTotal();
    StableOrderCorrect(WordsOf(parsed), Less);
    Select(parsed, StableOrder(WordsOf(parsed), Less))
  }

  /** Decoding keeps one entry per line (nothing is merged), sorts the
      entries by word and keeps lines with equal words in file order. */
  lemma DecodeSpec(text: string)
    ensures var parsed := ParseLines(Lines(Universal(text)));
            && |Decode(text)| == |Lines(Universal(text))|
            && multiset(Decode(text)) == multiset(parsed)
            && (forall p, q :: 0 <= p < q < |Decode(text)| ==> !Less(Decode(text)[q].word, Decode(text)[p].word))
            && KeepsTies(WordsOf(parsed), StableOrder(WordsOf(parsed), Less))
  {
    var parsed := ParseLines(Lines(Universal(text)));
    var order := StableOrder(WordsOf(parsed), Less);
    LessStrictTotal();
    StableOrderCorrect(WordsOf(parsed), Less);
    SelectPermutation(parsed, order);
  }

  // ---------------------------------------------------------------- round trip

  /** A term `write_contents` can write so that `renew_contents` reads it
      back unchanged: its word holds no line break and does not start with
      ';'. */
  predicate Writable(e: Entry)
  {
    '\n' !in e.word && '\r' !in e.word && (e.word == [] || e.word[0] != ';')
  }

  lemma ParseLineOf(e: Entry)
    requires Writable(e)
    ensures ParseLine(LineOf(e)) == e
  {
    LineBody(e);
    BodyWord(e);
    LineMark(e);
  }

  /** Removing the line break leaves the mark and the word. */
  lemma LineBody(e: Entry)
    requires Writable(e)
    ensures Remove(LineOf(e), '\n') == (if e.checked then ";" else "") + e.word
  {
    var body := (if e.checked then ";" else "") + e.word;
    assert LineOf(e) == body + "\n";
    assert '\n' !in body;
    RemoveLast(body, '\n');
  }

  /** Stripping the leading ';'s leaves the word. */
  lemma BodyWord(e: Entry)
    requires Writable(e)
    ensures LStrip((if e.checked then ";" else "") + e.word, {';'}) == e.word
  {
    assert LStrip(e.word, {';'}) == e.word;
    if e.checked {
      var s := ";" + e.word;
      assert s[0] == ';' && s[1..] == e.word;
      assert LStrip(s, {';'}) == LStrip(s[1..], {';'});
    } else {
      assert "" + e.word == e.word;
    }
  }

  /** The line starts with ';' exactly when the term is checked. */
  lemma LineMark(e: Entry)
    requires Writable(e)
    ensures LineOf(e)[0] == ';' <==> e.checked
  {
    if !e.checked {
      assert LineOf(e) == e.word + "\n";
      assert LineOf(e)[0] == if e.word == [] then '\n' else e.word[0];
    }
  }

  lemma {:induction false} RemoveLast(s: string, c: char)
    requires c !in s
    ensures Remove(s + [c], c) == s
  {
    if s != [] {
      assert (s + [c])[1..] == s[1..] + [c];
      RemoveLast(s[1..], c);
    } else {
      assert s + [c] == [c];
    }
  }

  /** The lines of an encoded ledger are the encoded terms, one each. */
  lemma {:induction false} LinesOfEncode(es: seq<Entry>)
    requires forall k :: 0 <= k < |es| ==> Writable(es[k])
    ensures Universal(Encode(es)) == Encode(es)
    ensures Lines(Encode(es)) == seq(|es|, k requires 0 <= k < |es| => LineOf(es[k]))
  {
    if es != [] {
      LinesOfEncode(es[1..]);
      var line := LineOf(es[0]);
      assert line[..|line| - 1] == (if es[0].checked then ";" else "") + es[0].word;
      LinesCons(line, Encode(es[1..]));
      assert '\r' !in line;
      NoReturnConcat(line, Encode(es[1..]));
    }
  }

  lemma NoReturnConcat(a: string, b: string)
    requires '\r' !in a && Universal(b) == b
    ensures Universal(a + b) == a + b
  {
    assert '\r' !in b;
    assert '\r' !in a + b;
  }

  /** Writing any writable terms and reading them back gives them stably
      sorted by word. */
  lemma DecodeEncode(es: seq<Entry>)
    requires forall k :: 0 <= k < |es| ==> Writable(es[k])
    ensures Decode(Encode(es)) == Select(es, StableOrder(WordsOf(es), Less))
  {
    LinesOfEncode(es);
    var lines := Lines(Universal(Encode(es)));
    forall k | 0 <= k < |es| ensures ParseLine(lines[k]) == es[k] {
      ParseLineOf(es[k]);
    }
    assert ParseLines(lines) == es;
  }

  /** Round trip: terms already in word order (as `write_contents` leaves
      them) are read back exactly, words and checked flags alike. */
  lemma RoundTrip(es: seq<Entry>)
    requires forall k :: 0 <= k < |es| ==> Writable(es[k])
    requires forall p, q :: 0 <= p < q < |es| ==> !Less(es[q].word, es[p].word)
    ensures Decode(Encode(es)) == es
  {
    DecodeEncode(es);
    StableOrderOfSorted(WordsOf(es), Less);
    SelectAll(es);
  }

  /** What `write_contents` then `renew_contents` do to an index: its terms
      come back as `sort_contents` left them. */
  lemma WriteThenRenew(es: seq<Entry>)
    requires forall k :: 0 <= k < |es| ==> Writable(es[k])
    ensures Decode(Encode(Canonical(es, WordsOf(es)))) == Canonical(es, WordsOf(es))
  {
    var c := Canonical(es, WordsOf(es));
    CanonicalSpec(es, WordsOf(es));
    assert WordsOf(c) == Select(WordsOf(es), Picks(WordsOf(es)));
    forall p, q | 0 <= p < q < |c| ensures !Less(c[q].word, c[p].word) {
      LessAsymmetric(c[p].word, c[q].word);
    }
    RoundTrip(c);
  }
}
