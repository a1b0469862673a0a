/** The objects of the catalog below `Scoro`: the directory of ledger files
    (`Disk`), a tracked word (`Term`) and one category (`Index`) with its
    terms and its ledger file. */
module Indexes {
  import opened Text
  import opened Selection
  import opened Words
  import opened Ledger
  import opened Registry

  /** The ledger directory: the text of each ledger file, by address. Every
      index and the catalog share one. */
  class Disk {
    var files: map<string, string>

    constructor(files: map<string, string>)
      ensures this.files == files
    {
      this.files := files;
    }
  }

  /** An entry of an index. The flag is named after the source: `check`
      clears it and `uncheck` sets it, and `pull` only looks at terms whose
      flag is clear. */
  class Term {
    const word: string
    var checked: bool

    /** The flag takes the value of the parameter named `unchecked`. */
    constructor(word: string, unchecked: bool)
      ensures this.word == word && checked == unchecked
    {
      this.word := word;
      checked := unchecked;
    }

    /** `check` clears the flag. */
    method Check()
      modifies this
      ensures !checked
    {
      checked := false;
    }

    /** `uncheck` sets the flag. */
    method Uncheck()
      modifies this
      ensures checked
    {
      checked := true;
    }
  }

  /** The values held by a list of terms. */
  function EntriesOf(ts: seq<Term>): (es: seq<Entry>)
    reads set t | t in ts
    ensures |es| == |ts|
    ensures forall k :: 0 <= k < |ts| ==> es[k] == Entry(ts[k].word, ts[k].checked)
  {
    seq(|ts|, k requires 0 <= k < |ts| reads set t | t in ts => Entry(ts[k].word, ts[k].checked))
  }

  /** Terms that did not change have the same entries. */
  twostate lemma EntriesStable(ts: seq<Term>)
    requires forall k :: 0 <= k < |ts| ==> unchanged(ts[k])
    ensures EntriesOf(ts) == old(EntriesOf(ts))
  {
  }

  /** One more term adds its value at the end. */
  lemma EntriesSnoc(ts: seq<Term>, t: Term)
    ensures EntriesOf(ts + [t]) == EntriesOf(ts) + [Entry(t.word, t.checked)]
  {
  }

  function TermWords(ts: seq<Term>): (ws: seq<string>)
    ensures |ws| == |ts|
    ensures forall k :: 0 <= k < |ts| ==> ws[k] == ts[k].word
  {
    seq(|ts|, k requires 0 <= k < |ts| => ts[k].word)
  }

  lemma EntriesWords(ts: seq<Term>)
    ensures WordsOf(EntriesOf(ts)) == TermWords(ts)
  {
  }

  /** Picking terms by position picks their values by position. */
  lemma EntriesSelect(ts: seq<Term>, js: seq<nat>)
    requires forall k :: 0 <= k < |js| ==> js[k] < |ts|
    ensures EntriesOf(Select(ts, js)) == Select(EntriesOf(ts), js)
    ensures TermWords(Select(ts, js)) == Select(TermWords(ts), js)
  {
  }

  /** The values of `sort_contents`' result are `sort_contents` applied to
      the values. */
  lemma EntriesCanonical(ts: seq<Term>)
    ensures EntriesOf(Canonical(ts, TermWords(ts))) == Canonical(EntriesOf(ts), WordsOf(EntriesOf(ts)))
  {
    EntriesWords(ts);
    EntriesSelect(ts, Picks(TermWords(ts)));
  }

  /** The words of `sort_contents`' result strictly increase. */
  lemma CanonicalIncreasing(ts: seq<Term>)
    ensures Increasing(TermWords(Canonical(ts, TermWords(ts))))
  {
    CanonicalSpec(ts, TermWords(ts));
    EntriesSelect(ts, Picks(TermWords(ts)));
  }

  /** Whether a term carries the word `w`. */
  function Contains(ts: seq<Term>, w: string): (found: bool)
    ensures found <==> exists k :: 0 <= k < |ts| && ts[k].word == w
  {
    if ts == [] then false
    else if ts[0].word == w then true
    else
      var found := Contains(ts[1..], w);
      assert found ==> exists k :: 0 <= k < |ts| && ts[k].word == w by {
        if found {
          var k :| 0 <= k < |ts[1..]| && ts[1..][k].word == w;
          assert ts[k + 1].word == w;
        }
      }
      found
  }

  // ---------------------------------------------------------------- join

  /** Where `sort_contents`' join stands after the first `k` of the sorted
      words `sorted`: `rem` are the positions not used yet, in increasing
      order, and every used position carries one of the first `k` sorted
      words. */
  ghost predicate JoinState(ws: seq<string>, sorted: seq<string>, k: nat, rem: seq<nat>)
  {
    && k <= |sorted|
    && (forall i :: 0 <= i < |rem| ==> rem[i] < |ws|)
    && Ascending(rem)
    && (forall q :: 0 <= q < |ws| && q !in rem ==> ws[q] in sorted[..k])
  }

  lemma JoinStart(ws: seq<string>, sorted: seq<string>)
    ensures JoinState(ws, sorted, 0, Range(0, |ws|))
  {
    forall q | 0 <= q < |ws| ensures q in Range(0, |ws|) {
      assert Range(0, |ws|)[q] == q;
    }
  }

  /** The first unused position with the next sorted word is the first
      position of the whole list with that word. */
  lemma JoinFound(ws: seq<string>, sorted: seq<string>, k: nat, rem: seq<nat>, j: nat)
    requires JoinState(ws, sorted, k, rem)
    requires Increasing(sorted)
    requires k < |sorted| && sorted[k] in ws
    requires j <= |rem|
    requires forall j' :: 0 <= j' < j ==> ws[rem[j']] != sorted[k]
    requires j < |rem| ==> ws[rem[j]] == sorted[k]
    ensures j < |rem| && rem[j] == FirstIndex(ws, sorted[k])
  {
    var w := sorted[k];
    var f := FirstIndex(ws, w);
    assert f in rem by {
      if f !in rem {
        var i :| 0 <= i < k && sorted[i] == w;
        LessIrreflexive(w);
      }
    }
    var m :| 0 <= m < |rem| && rem[m] == f;
    assert j <= m;
    assert rem[j] == f;
  }

  ghost predicate Ascending(rem: seq<nat>)
  {
    forall i, i' :: 0 <= i < i' < |rem| ==> rem[i] < rem[i']
  }

  /** Taking a position out of an increasing list keeps it increasing. */
  lemma RemoveIncreasing(rem: seq<nat>, j: nat)
    requires j < |rem| && Ascending(rem)
    ensures Ascending(rem[..j] + rem[j + 1..])
  {
    var rem' := rem[..j] + rem[j + 1..];
    forall i, i' | 0 <= i < i' < |rem'| ensures rem'[i] < rem'[i'] {
      var a, b := if i < j then i else i + 1, if i' < j then i' else i' + 1;
      assert rem'[i] == rem[a] && rem'[i'] == rem[b];
    }
  }

  /** Using that position moves the join on by one word. */
  lemma JoinNext(ws: seq<string>, sorted: seq<string>, k: nat, rem: seq<nat>, j: nat)
    requires JoinState(ws, sorted, k, rem)
    requires k < |sorted|
    requires j < |rem| && ws[rem[j]] == sorted[k]
    ensures JoinState(ws, sorted, k + 1, rem[..j] + rem[j + 1..])
  {
    var rem' := rem[..j] + rem[j + 1..];
    RemoveIncreasing(rem, j);
    forall q | 0 <= q < |ws| && q !in rem' ensures ws[q] in sorted[..k + 1] {
      if q == rem[j] {
        assert sorted[..k + 1][k] == ws[q];
      } else {
        NotRemoved(rem, j, q);
        var i :| 0 <= i < k && sorted[i] == ws[q];
        assert sorted[..k + 1][i] == ws[q];
      }
    }
  }

  lemma NotRemoved(rem: seq<nat>, j: nat, q: nat)
    requires j < |rem| && q != rem[j] && q !in rem[..j] + rem[j + 1..]
    ensures q !in rem
  {
  }

  /** One fresh term per entry, in order: the terms `renew_contents`
      builds from the parsed lines of a ledger file. */
  method NewTerms(es: seq<Entry>) returns (read: seq<Term>)
    ensures EntriesOf(read) == es
    ensures forall k :: 0 <= k < |read| ==> fresh(read[k])
  {
    read := [];
    for i := 0 to |es|
      invariant |read| == i
      invariant forall k :: 0 <= k < i ==> read[k].word == es[k].word && read[k].checked == es[k].checked
      invariant forall k :: 0 <= k < i ==> fresh(read[k])
    {
      var t := new Term(es[i].word, es[i].checked);
      read := read + [t];
    }
  }

  /** The position of the first term carrying `w`, or `|ts|` when none does. */
  method FirstUnused(ts: seq<Term>, w: string) returns (j: nat)
    ensures j <= |ts|
    ensures forall i :: 0 <= i < j ==> ts[i].word != w
    ensures j < |ts| ==> ts[j].word == w
  {
    j := 0;
    while j < |ts| && ts[j].word != w
      invariant j <= |ts|
      invariant forall i :: 0 <= i < j ==> ts[i].word != w
    {
      j := j + 1;
    }
  }

  /** The join loop's state after `k` sorted words: `unused` are the terms
      at the positions `rem`, and `joined` holds, for each of the first `k`
      sorted words, the first term carrying it. */
  ghost predicate Joining(xs: seq<Term>, sorted: seq<string>, k: nat, rem: seq<nat>, unused: seq<Term>, joined: seq<Term>)
  {
    var ws := TermWords(xs);
    && JoinState(ws, sorted, k, rem)
    && Aligned(xs, rem, unused)
    && |joined| == k
    && (forall i :: 0 <= i < k ==> sorted[i] in ws && joined[i] == xs[FirstIndex(ws, sorted[i])])
  }

  /** One step of the join: the first unused term with the next sorted
      word exists, and taking it out of `unused` and onto `joined` moves the
      state on by one word. */
  lemma JoinAdvance(xs: seq<Term>, sorted: seq<string>, k: nat, rem: seq<nat>, unused: seq<Term>, joined: seq<Term>, j: nat)
    requires Joining(xs, sorted, k, rem, unused, joined)
    requires Increasing(sorted)
    requires k < |sorted| && sorted[k] in TermWords(xs)
    requires j <= |unused|
    requires forall i :: 0 <= i < j ==> unused[i].word != sorted[k]
    requires j < |unused| ==> unused[j].word == sorted[k]
    ensures j < |unused|
    ensures Joining(xs, sorted, k + 1, rem[..j] + rem[j + 1..], unused[..j] + unused[j + 1..], joined + [unused[j]])
  {
    var ws := TermWords(xs);
    JoinFound(ws, sorted, k, rem, j);
    JoinNext(ws, sorted, k, rem, j);
    RemoveAligned(xs, rem, unused, j);
  }

  /** `unused` are the terms of `xs` at the positions `rem`. */
  ghost predicate Aligned(xs: seq<Term>, rem: seq<nat>, unused: seq<Term>)
  {
    |unused| == |rem| && forall i :: 0 <= i < |rem| ==> rem[i] < |xs| && unused[i] == xs[rem[i]]
  }

  /** Removing the same place from both lists keeps them aligned. */
  lemma RemoveAligned(xs: seq<Term>, rem: seq<nat>, unused: seq<Term>, j: nat)
    requires Aligned(xs, rem, unused) && j < |rem|
    ensures Aligned(xs, rem[..j] + rem[j + 1..], unused[..j] + unused[j + 1..])
  {
    var rem', unused' := rem[..j] + rem[j + 1..], unused[..j] + unused[j + 1..];
    forall i | 0 <= i < |rem'| ensures rem'[i] < |xs| && unused'[i] == xs[rem'[i]] {
      if i < j {
        assert unused'[i] == unused[i] && rem'[i] == rem[i];
      } else {
        assert unused'[i] == unused[i + 1] && rem'[i] == rem[i + 1];
      }
    }
  }

  /** The body of `sort_contents`: quicksort the words, then join each
      sorted word to the first unused term carrying it. */
  method SortTerms(xs: seq<Term>) returns (joined: seq<Term>)
    ensures joined == Canonical(xs, TermWords(xs))
  {
    joined := [];
    if |xs| > 0 {
      var onlyTerms := Quicksort(TermWords(xs));
      var unused := xs;
      ghost var rem := Range(0, |xs|);
      JoinStart(TermWords(xs), onlyTerms);
      for k := 0 to |onlyTerms|
        invariant Joining(xs, onlyTerms, k, rem, unused, joined)
      {
        var term := onlyTerms[k];
        var j := FirstUnused(unused, term);
        JoinAdvance(xs, onlyTerms, k, rem, unused, joined, j);
        if j < |unused| {
          joined := joined + [unused[j]];
          unused := unused[..j] + unused[j + 1..];
          rem := rem[..j] + rem[j + 1..];
        }
      }
    }
  }

  /** The text `write_contents` writes for the terms, built line by line. */
  method EncodeTerms(terms: seq<Term>) returns (text: string)
    ensures text == Encode(EntriesOf(terms))
  {
    text := "";
    for i := 0 to |terms|
      invariant text == Encode(EntriesOf(terms[..i]))
    {
      var t := terms[i];
      EncodeSnoc(EntriesOf(terms[..i]), Entry(t.word, t.checked));
      assert EntriesOf(terms[..i + 1]) == EntriesOf(terms[..i]) + [Entry(t.word, t.checked)];
      text := text + ((if t.checked then ";" else "") + t.word + "\n");
    }
    assert terms[..|terms|] == terms;
  }

  // ---------------------------------------------------------------- Index

  /** One category: a title, an order, the address of its ledger file and
      its terms. */
  class Index {
    const title: string
    const order: int
    const address: string
    const disk: Disk
    var contents: seq<Term>

    /** The ledger is `<root>/<title>_<order>.lst`; it is created empty when
        missing and left as it is otherwise. The index starts with no
        terms. */
    constructor(title: string, root: string, order: int, disk: Disk)
      modifies disk
      ensures this.title == title && this.order == order && this.disk == disk
      ensures address == LedgerAddress(root, title, order)
      ensures contents == []
      ensures LedgerAddress(root, title, order) in old(disk.files) ==> disk.files == old(disk.files)
      ensures LedgerAddress(root, title, order) !in old(disk.files) ==>
                disk.files == old(disk.files)[LedgerAddress(root, title, order) := ""]
    {
      this.title := title;
      this.order := order;
      address := LedgerAddress(root, title, order);
      this.disk := disk;
      contents := [];
      new;
      if address !in disk.files {
        disk.files := disk.files[address := ""];
      }
    }

    /** `add`: one new term at the end. */
    method Add(word: string, checked: bool)
      modifies this
      ensures |contents| == |old(contents)| + 1
      ensures contents[..|old(contents)|] == old(contents)
      ensures fresh(contents[|old(contents)|])
      ensures contents[|old(contents)|].word == word && contents[|old(contents)|].checked == checked
    {
      var t := new Term(word, checked);
      contents := contents + [t];
    }

    /** `add(word, checked=True)` for each word in turn. */
    method AddChecked(ws: seq<string>)
      modifies this
      ensures EntriesOf(contents) == old(EntriesOf(contents)) + CheckedEntries(ws)
    {
      ghost var es0 := EntriesOf(contents);
      ghost var ts0 := contents;
      for j := 0 to |ws|
        invariant |contents| == |ts0| + j && contents[..|ts0|] == ts0
        invariant EntriesOf(contents) == es0 + CheckedEntries(ws[..j])
      {
        label before:
        ghost var prev := contents;
        Add(ws[j], true);
        EntriesStable@before(prev);
        assert contents == prev + [contents[|prev|]];
        EntriesSnoc(prev, contents[|prev|]);
        assert CheckedEntries(ws[..j + 1]) == CheckedEntries(ws[..j]) + [Entry(ws[j], true)];
      }
      assert ws[..|ws|] == ws;
    }

    /** `clear_contents`: the ledger is truncated and the terms dropped. */
    method ClearContents()
      modifies this, disk
      ensures contents == []
      ensures disk.files == old(disk.files)[address := ""]
    {
      disk.files := disk.files[address := ""];
      contents := [];
    }

    /** `reset_contents`: `check` on every term, which clears every flag. */
    method ResetContents()
      modifies set t | t in contents
      ensures forall k :: 0 <= k < |contents| ==> !contents[k].checked
    {
      for i := 0 to |contents|
        invariant forall k :: 0 <= k < i ==> !contents[k].checked
      {
        contents[i].Check();
      }
    }

    /** `renew_contents`: the terms are rebuilt from the ledger file, one per
        line, stably sorted by word; a missing file is the
        FileNotFoundError, and then nothing changes. */
    method RenewContents() returns (ok: bool)
      modifies this
      ensures ok <==> address in disk.files
      ensures ok ==> EntriesOf(contents) == Decode(disk.files[address])
      ensures ok ==> forall k :: 0 <= k < |contents| ==> fresh(contents[k])
      ensures !ok ==> contents == old(contents)
    {
      if address !in disk.files {
        return false;
      }
      var lines := Lines(Universal(disk.files[address]));
      var read := NewTerms(ParseLines(lines));
      EntriesWords(read);
      var sorted := StableOrder(TermWords(read), Less);
      EntriesSelect(read, sorted);
      contents := Select(read, sorted);
      ok := true;
    }

    /** `sort_contents`: the words are quicksorted (which drops repeats) and
        each sorted word is joined back to the first unused term carrying
        it. The result is `Canonical`: one term per distinct word, in word
        order, each the first term of the old list with that word. */
    method SortContents()
      modifies this
      ensures contents == Canonical(old(contents), TermWords(old(contents)))
    {
      contents := SortTerms(contents);
    }

    /** `write_contents`: `sort_contents`, then the ledger file is
        overwritten with one line per term. */
    method WriteContents()
      modifies this, disk
      ensures contents == Canonical(old(contents), TermWords(old(contents)))
      ensures disk.files == old(disk.files)[address := Encode(EntriesOf(contents))]
    {
      SortContents();
      var text := EncodeTerms(contents);
      disk.files := disk.files[address := text];
    }

    /** `is_in_index`. */
    function IsInIndex(term: string): (found: bool)
      reads this
      ensures found <==> exists k :: 0 <= k < |contents| && contents[k].word == term
    {
      Contains(contents, term)
    }
  }
}
