/** The storage directory against the indexes. A stored file's name stem,
    split on '_', gives one token per category: the token at 0-based
    position `i` belongs to the index of order `i + 1`. `Pull` is what
    `Scoro.pull` returns; `Collected` and `Reconciled` are what
    `Scoro.refresh_indexes_list` adds to each index. */
module Storage {
  import opened Text
  import opened Selection
  import opened Words
  import opened Ledger

  /** A file of the storage directory: its path as listed and its name stem. */
  datatype StoredFile = StoredFile(path: string, stem: string)

  function Tokens(f: StoredFile): seq<string>
  {
    Split(f.stem, '_')
  }

  // ---------------------------------------------------------------- pull

  /** One index as `pull` sees it: its order and its unchecked words. */
  datatype Target = Target(order: int, pending: seq<string>)

  /** The token at position `i` is wanted when an index of order `i + 1`
      holds it as an unchecked word. */
  predicate Wanted(targets: seq<Target>, i: int, token: string)
  {
    exists t :: t in targets && t.order == i + 1 && token in t.pending
  }

  /** The words of the terms whose flag is clear, in list order: what
      `pull` collects from one index. */
  function Pending(es: seq<Entry>): (ws: seq<string>)
    ensures forall w :: w in ws <==> exists k :: 0 <= k < |es| && !es[k].checked && es[k].word == w
  {
    if es == [] then []
    else
      var init := Pending(es[..|es| - 1]);
      var e := es[|es| - 1];
      assert forall k :: 0 <= k < |es| - 1 ==> es[..|es| - 1][k] == es[k];
      init + (if !e.checked then [e.word] else [])
  }

  /** The positions of `tokens` that are wanted, in increasing order. */
  function Positions(targets: seq<Target>, tokens: seq<string>): (ps: seq<nat>)
    ensures forall i :: i in ps <==> 0 <= i < |tokens| && Wanted(targets, i, tokens[i])
    ensures forall p, q :: 0 <= p < q < |ps| ==> ps[p] < ps[q]
  {
    if tokens == [] then []
    else
      var n := |tokens| - 1;
      var init := Positions(targets, tokens[..n]);
      assert forall i :: 0 <= i < n ==> tokens[..n][i] == tokens[i];
      assert forall p :: 0 <= p < |init| ==> init[p] < n by {
        forall p | 0 <= p < |init| ensures init[p] < n {
          assert init[p] in init;
        }
      }
      if Wanted(targets, n, tokens[n]) then init + [n] else init
  }

  /** `pull` on a list of files: for each file in listing order, its path
      once per wanted position. */
  function Pull(targets: seq<Target>, files: seq<StoredFile>): (r: seq<string>)
    ensures forall k :: 0 <= k < |r| ==> exists f :: f in files && f.path == r[k]
  {
    if files == [] then []
    else
      var f := files[|files| - 1];
      Pull(targets, files[..|files| - 1]) + seq(|Positions(targets, Tokens(f))|, _ => f.path)
  }

  /** Some target of order `o` holds `w` as an unchecked word. */
  predicate HeldBy(targets: seq<Target>, o: int, w: string)
  {
    exists t :: t in targets && t.order == o && w in t.pending
  }

  /** The unchecked words of the targets of order `o`, one target after
      the other. */
  function PendingOf(targets: seq<Target>, o: int): seq<string>
  {
    if targets == [] then []
    else
      var n := |targets| - 1;
      PendingOf(targets[..n], o) + if targets[n].order == o then targets[n].pending else []
  }

  lemma PendingOfStep(targets: seq<Target>, x: nat, o: int)
    requires x < |targets|
    ensures PendingOf(targets[..x + 1], o) == PendingOf(targets[..x], o) + if targets[x].order == o then targets[x].pending else []
  {
    assert targets[..x + 1][..x] == targets[..x];
  }

  lemma {:induction false} PendingOfHeld(targets: seq<Target>, o: int, w: string)
    ensures w in PendingOf(targets, o) <==> HeldBy(targets, o, w)
  {
    if targets != [] {
      var n := |targets| - 1;
      PendingOfHeld(targets[..n], o, w);
      assert forall t :: t in targets <==> t in targets[..n] || t == targets[n];
    }
  }

  /** The dict `pull` builds: a key for each order an index has, holding
      the unchecked words of the indexes of that order in list order. */
  ghost predicate Gathered(wanted: map<int, seq<string>>, targets: seq<Target>)
  {
    && (forall o :: o in wanted <==> exists t :: t in targets && t.order == o)
    && (forall o :: o in wanted ==> wanted[o] == PendingOf(targets, o))
  }

  /** Looking a token up in the gathered dict, with a missing key meaning
      no, is `Wanted`. */
  lemma GatheredWanted(wanted: map<int, seq<string>>, targets: seq<Target>, i: int, token: string)
    requires Gathered(wanted, targets)
    ensures Wanted(targets, i, token) <==> i + 1 in wanted && token in wanted[i + 1]
  {
    PendingOfHeld(targets, i + 1, token);
    if Wanted(targets, i, token) {
      assert HeldBy(targets, i + 1, token);
    }
  }

  /** The dict has a key for each order of an index. */
  lemma GatheredKeys(wanted: map<int, seq<string>>, targets: seq<Target>, orders: seq<int>)
    requires |orders| == |targets| && forall k :: 0 <= k < |targets| ==> orders[k] == targets[k].order
    requires forall o :: o in wanted <==> o in orders
    requires forall o :: o in wanted ==> wanted[o] == PendingOf(targets, o)
    ensures Gathered(wanted, targets)
  {
    forall o ensures o in wanted <==> exists t :: t in targets && t.order == o {
      if o in wanted {
        var k :| 0 <= k < |orders| && orders[k] == o;
        assert targets[k] in targets;
      }
      if exists t :: t in targets && t.order == o {
        var t :| t in targets && t.order == o;
        var k :| 0 <= k < |targets| && targets[k] == t;
        assert orders[k] == o;
      }
    }
  }

  lemma PendingStep(es: seq<Entry>, j: nat)
    requires j < |es|
    ensures Pending(es[..j + 1]) == Pending(es[..j]) + if !es[j].checked then [es[j].word] else []
  {
    assert es[..j + 1][..j] == es[..j];
  }

  lemma PositionsStep(targets: seq<Target>, tokens: seq<string>, i: nat)
    requires i < |tokens|
    ensures Positions(targets, tokens[..i + 1]) == Positions(targets, tokens[..i]) + if Wanted(targets, i, tokens[i]) then [i] else []
  {
    assert tokens[..i + 1][..i] == tokens[..i];
  }

  lemma CopiesStep(p: string, n: nat)
    ensures seq(n + 1, _ => p) == seq(n, _ => p) + [p]
  {
  }

  lemma PullStep(targets: seq<Target>, files: seq<StoredFile>, f: nat)
    requires f < |files|
    ensures Pull(targets, files[..f + 1]) == Pull(targets, files[..f]) + seq(|Positions(targets, Tokens(files[f]))|, _ => files[f].path)
  {
    assert files[..f + 1][..f] == files[..f];
  }

  /** The file has at least one wanted position. */
  predicate HasWanted(targets: seq<Target>, f: StoredFile)
  {
    Positions(targets, Tokens(f)) != []
  }

  lemma HasWantedSpec(targets: seq<Target>, f: StoredFile)
    ensures HasWanted(targets, f) <==> exists i :: 0 <= i < |Tokens(f)| && Wanted(targets, i, Tokens(f)[i])
  {
    if HasWanted(targets, f) {
      assert Positions(targets, Tokens(f))[0] in Positions(targets, Tokens(f));
    }
  }

  lemma {:induction false} PullHasWanted(targets: seq<Target>, files: seq<StoredFile>, p: string)
    ensures p in Pull(targets, files) <==>
            exists k :: 0 <= k < |files| && files[k].path == p && HasWanted(targets, files[k])
  {
    if files != [] {
      var n := |files| - 1;
      var f := files[n];
      PullHasWanted(targets, files[..n], p);
      var tail := seq(|Positions(targets, Tokens(f))|, _ => f.path);
      assert Pull(targets, files) == Pull(targets, files[..n]) + tail;
      assert p in tail <==> f.path == p && HasWanted(targets, f) by {
        if f.path == p && HasWanted(targets, f) {
          assert tail[0] == p;
        }
      }
      assert forall k :: 0 <= k < n ==> files[..n][k] == files[k];
    }
  }

  /** A path is pulled exactly when one of the files listed under it has a
      wanted token; positions without an index of the matching order never
      count. */
  lemma PullMember(targets: seq<Target>, files: seq<StoredFile>, p: string)
    ensures p in Pull(targets, files) <==>
            exists k, i :: 0 <= k < |files| && files[k].path == p && 0 <= i < |Tokens(files[k])|
                           && Wanted(targets, i, Tokens(files[k])[i])
  {
    PullHasWanted(targets, files, p);
    forall k | 0 <= k < |files| {
      HasWantedSpec(targets, files[k]);
    }
  }

  /** The result follows the listing: pulling two listings one after the
      other is pulling their concatenation. */
  lemma {:induction false} PullAppend(targets: seq<Target>, a: seq<StoredFile>, b: seq<StoredFile>)
    ensures Pull(targets, a + b) == Pull(targets, a) + Pull(targets, b)
  {
    if b != [] {
      var n := |b| - 1;
      assert (a + b)[..|a + b| - 1] == a + b[..n];
      PullAppend(targets, a, b[..n]);
    } else {
      assert a + b == a;
    }
  }

  /** A file appears once for every wanted position of its stem: the number
      of copies of a path is the number of wanted positions of the file
      listed under it. */
  lemma {:induction false} PullCount(targets: seq<Target>, files: seq<StoredFile>, k: nat)
    requires k < |files|
    requires forall j :: 0 <= j < |files| && j != k ==> files[j].path != files[k].path
    ensures multiset(Pull(targets, files))[files[k].path] == |Positions(targets, Tokens(files[k]))|
  {
    var n := |files| - 1;
    var f := files[n];
    var p := files[k].path;
    var tail := seq(|Positions(targets, Tokens(f))|, _ => f.path);
    assert Pull(targets, files) == Pull(targets, files[..n]) + tail;
    if k == n {
      assert p !in Pull(targets, files[..n]) by {
        PullHasWanted(targets, files[..n], p);
      }
      assert multiset(tail)[p] == |tail| by {
        SameCount(tail, p);
      }
    } else {
      PullCount(targets, files[..n], k);
      assert p != f.path;
      assert p !in multiset(tail);
    }
  }

  lemma {:induction false} SameCount(s: seq<string>, p: string)
    requires forall j :: 0 <= j < |s| ==> s[j] == p
    ensures multiset(s)[p] == |s|
  {
    if s != [] {
      assert s == [s[0]] + s[1..];
      SameCount(s[1..], p);
    }
  }

  // ---------------------------------------------------------------- refresh

  /** What `refresh_indexes_list` gathers for the index of order `order`:
      the token at position `order - 1` of each stem, when there is one and
      it is not empty, in listing order. */
  function Collected(files: seq<StoredFile>, order: int): (ws: seq<string>)
    ensures forall w :: w in ws ==> w != []
    ensures forall w :: w in ws <==>
              exists k :: 0 <= k < |files| && 1 <= order <= |Tokens(files[k])|
                          && Tokens(files[k])[order - 1] == w && w != []
  {
    if files == [] then []
    else
      var n := |files| - 1;
      var ts := Tokens(files[n]);
      var init := Collected(files[..n], order);
      assert forall k :: 0 <= k < n ==> files[..n][k] == files[k];
      init + (if 1 <= order <= |ts| && ts[order - 1] != [] then [ts[order - 1]] else [])
  }

  /** `list(set(xs))`, with the set read in first-occurrence order; also the
      keys of a dict built from a list with repeats. */
  function Dedup<T(==,!new)>(xs: seq<T>): (r: seq<T>)
    ensures forall x :: x in r <==> x in xs
    ensures forall p, q :: 0 <= p < q < |r| ==> r[p] != r[q]
    ensures |r| <= |xs|
  {
    if xs == [] then []
    else
      var init := Dedup(xs[..|xs| - 1]);
      assert forall x :: x in xs <==> x in xs[..|xs| - 1] || x == xs[|xs| - 1];
      if xs[|xs| - 1] in init then init else init + [xs[|xs| - 1]]
  }

  /** A list without repeats is its own deduplication. */
  lemma {:induction false} DedupDistinct<T(!new)>(xs: seq<T>)
    requires forall p, q :: 0 <= p < q < |xs| ==> xs[p] != xs[q]
    ensures Dedup(xs) == xs
  {
    if xs != [] {
      DedupDistinct(xs[..|xs| - 1]);
    }
  }

  /** The words `refresh_indexes_list` adds to each index, by position in
      the index list: the dict keys are the orders without repeats, in
      first-occurrence order, and the `k`-th key's gathered tokens, without
      repeats, go to the `k`-th index; indexes past the last key get
      nothing. */
  function Additions(files: seq<StoredFile>, orders: seq<int>): (adds: seq<seq<string>>)
    ensures |adds| == |orders|
    ensures forall k, w :: 0 <= k < |adds| && w in adds[k] ==> w != []
    ensures forall k, p, q :: 0 <= k < |adds| && 0 <= p < q < |adds[k]| ==> adds[k][p] != adds[k][q]
  {
    var keys := Dedup(orders);
    seq(|orders|, k requires 0 <= k < |orders| => if k < |keys| then Dedup(Collected(files, keys[k])) else [])
  }

  /** When no two indexes share an order, each index receives exactly the
      distinct non-empty tokens found at the position of its own order, and
      no token twice. */
  lemma AdditionsOwnOrder(files: seq<StoredFile>, orders: seq<int>, k: nat)
    requires forall p, q :: 0 <= p < q < |orders| ==> orders[p] != orders[q]
    requires k < |orders|
    ensures var adds := Additions(files, orders)[k];
            && (forall p, q :: 0 <= p < q < |adds| ==> adds[p] != adds[q])
            && forall w :: w in adds <==>
                 exists f :: 0 <= f < |files| && 1 <= orders[k] <= |Tokens(files[f])|
                             && Tokens(files[f])[orders[k] - 1] == w && w != []
  {
    DedupDistinct(orders);
  }

  /** An index's entries after `refresh_indexes_list`: the tokens are added
      as checked terms after the existing ones, then `sort_contents` runs. */
  function Reconciled(es: seq<Entry>, added: seq<string>): seq<Entry>
  {
    var all := es + CheckedEntries(added);
    Canonical(all, WordsOf(all))
  }

  /** After reconciliation the words increase, they are the old words and
      the added tokens together, an existing word keeps its first entry
      (checked flag included), and a word that is new comes in checked. */
  lemma ReconciledSpec(es: seq<Entry>, added: seq<string>)
    ensures var r := Reconciled(es, added);
            && Increasing(WordsOf(r))
            && (forall w :: w in WordsOf(r) <==> w in WordsOf(es) || w in added)
            && (forall k :: 0 <= k < |r| && r[k].word in WordsOf(es) ==>
                  r[k] == es[FirstIndex(WordsOf(es), r[k].word)])
            && (forall k :: 0 <= k < |r| && r[k].word !in WordsOf(es) ==> r[k].checked)
  {
    var all := es + CheckedEntries(added);
    var ws := WordsOf(all);
    var r := Reconciled(es, added);
    CanonicalSpec(all, ws);
    assert WordsOf(r) == Select(ws, Picks(ws));
    JoinedWords(es, added);
    forall k | 0 <= k < |r|
      ensures r[k].word in WordsOf(es) ==> r[k] == es[FirstIndex(WordsOf(es), r[k].word)]
      ensures r[k].word !in WordsOf(es) ==> r[k].checked
    {
      ReconciledPick(es, added, k);
    }
  }

  /** The words of the old entries followed by the added tokens. */
  lemma JoinedWords(es: seq<Entry>, added: seq<string>)
    ensures forall w :: w in WordsOf(es + CheckedEntries(added)) <==> w in WordsOf(es) || w in added
  {
    var ws := WordsOf(es + CheckedEntries(added));
    forall w ensures w in ws <==> w in WordsOf(es) || w in added {
      if w in ws {
        var k :| 0 <= k < |ws| && ws[k] == w;
        if k >= |es| {
          assert added[k - |es|] == w;
        } else {
          assert WordsOf(es)[k] == w;
        }
      }
      if w in WordsOf(es) {
        var k :| 0 <= k < |es| && WordsOf(es)[k] == w;
        assert ws[k] == w;
      }
      if w in added {
        var k :| 0 <= k < |added| && added[k] == w;
        assert ws[|es| + k] == w;
      }
    }
  }

  /** The `k`th reconciled entry is the first old entry with its word, or a
      checked new one. */
  lemma ReconciledPick(es: seq<Entry>, added: seq<string>, k: nat)
    requires k < |Reconciled(es, added)|
    ensures var r := Reconciled(es, added);
            && (r[k].word in WordsOf(es) ==> r[k] == es[FirstIndex(WordsOf(es), r[k].word)])
            && (r[k].word !in WordsOf(es) ==> r[k].checked)
  {
    var all := es + CheckedEntries(added);
    var ws := WordsOf(all);
    var r := Reconciled(es, added);
    CanonicalSpec(all, ws);
    var j := Picks(ws)[k];
    assert r[k] == all[j];
    if r[k].word in WordsOf(es) {
      var i := FirstIndex(WordsOf(es), r[k].word);
      assert ws[i] == ws[j];
      assert j <= i;
      assert WordsOf(es)[j] == r[k].word;
      assert all[j] == es[j];
    }
  }
}
