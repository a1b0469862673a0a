/** The catalog: `Scoro` keeps the list of indexes, registers the ledger
    files found in its location, reconciles the indexes with the storage
    directory and answers `pull`. */
module Catalog {
  import opened Text
  import opened Selection
  import opened Words
  import opened Ledger
  import opened Registry
  import opened Storage
  import opened Indexes

  /** The title and order of each index, in list order. */
  function SlotsOf(ixs: seq<Index>): (slots: seq<Slot>)
    ensures |slots| == |ixs|
    ensures forall k :: 0 <= k < |ixs| ==> slots[k] == Slot(ixs[k].title, ixs[k].order)
  {
    seq(|ixs|, k requires 0 <= k < |ixs| => Slot(ixs[k].title, ixs[k].order))
  }

  /** The terms of each index, in list order. */
  function ContentsOf(ixs: seq<Index>): (r: seq<seq<Term>>)
    reads set ix | ix in ixs
    ensures |r| == |ixs|
    ensures forall k :: 0 <= k < |ixs| ==> r[k] == ixs[k].contents
  {
    seq(|ixs|, k requires 0 <= k < |ixs| reads set ix | ix in ixs => ixs[k].contents)
  }

  /** What each ledger reads as. */
  function DecodeAll(files: map<string, string>, addresses: seq<string>): (r: seq<seq<Entry>>)
    requires forall k :: 0 <= k < |addresses| ==> addresses[k] in files
    ensures |r| == |addresses|
    ensures forall k :: 0 <= k < |addresses| ==> r[k] == Decode(files[addresses[k]])
  {
    seq(|addresses|, k requires 0 <= k < |addresses| => Decode(files[addresses[k]]))
  }

  /** What `pull` looks for in each index: its order and its unchecked
      words. */
  function TargetsOf(ixs: seq<Index>): (r: seq<Target>)
    reads set ix | ix in ixs, set ix, t | ix in ixs && t in ix.contents :: t
    ensures |r| == |ixs|
    ensures forall k :: 0 <= k < |ixs| ==> r[k] == Target(ixs[k].order, Pending(EntriesOf(ixs[k].contents)))
  {
    seq(|ixs|, k requires 0 <= k < |ixs| reads set ix | ix in ixs, set ix, t | ix in ixs && t in ix.contents :: t =>
      Target(ixs[k].order, Pending(EntriesOf(ixs[k].contents))))
  }

  /** Each list of terms in `sort_contents` form. */
  function CanonicalAll(xss: seq<seq<Term>>): (r: seq<seq<Term>>)
    ensures |r| == |xss|
    ensures forall k :: 0 <= k < |xss| ==> r[k] == Canonical(xss[k], TermWords(xss[k]))
  {
    seq(|xss|, k requires 0 <= k < |xss| => Canonical(xss[k], TermWords(xss[k])))
  }

  /** The ledger text each list of terms is written as. */
  function EncodedAll(xss: seq<seq<Term>>): (r: seq<string>)
    reads set ts, t | ts in xss && t in ts :: t
    ensures |r| == |xss|
    ensures forall k :: 0 <= k < |xss| ==> r[k] == Encode(EntriesOf(xss[k]))
  {
    seq(|xss|, k requires 0 <= k < |xss| reads (set ts, t | ts in xss && t in ts :: t) => Encode(EntriesOf(xss[k])))
  }

  /** `Path(address).touch()`: an empty file when there is none. */
  function Touch(files: map<string, string>, address: string): map<string, string>
  {
    if address in files then files else files[address := ""]
  }

  /** The ledger files of the indexes. */
  function AddressesOf(ixs: seq<Index>): (r: seq<string>)
    ensures |r| == |ixs|
    ensures forall k :: 0 <= k < |ixs| ==> r[k] == ixs[k].address
  {
    seq(|ixs|, k requires 0 <= k < |ixs| => ixs[k].address)
  }

  /** The ledger files of new indexes, touched in turn. */
  function TouchAll(files: map<string, string>, addresses: seq<string>): (r: map<string, string>)
    ensures forall a :: a in files ==> a in r && r[a] == files[a]
    ensures forall k :: 0 <= k < |addresses| ==> addresses[k] in r
  {
    if addresses == [] then files
    else
      var n := |addresses| - 1;
      Touch(TouchAll(files, addresses[..n]), addresses[n])
  }

  lemma {:induction false} TouchAllAppend(files: map<string, string>, a: seq<string>, b: seq<string>)
    ensures TouchAll(TouchAll(files, a), b) == TouchAll(files, a + b)
  {
    if b == [] {
      assert a + b == a;
    } else {
      var n := |b| - 1;
      TouchAllAppend(files, a, b[..n]);
      assert (a + b)[..|a + b| - 1] == a + b[..n];
    }
  }

  /** What the catalog keeps true of its indexes, with the ledger directory
      `files`. */
  ghost predicate Wired(ixs: seq<Index>, location: string, disk: Disk, files: map<string, string>)
  {
    && (forall k :: 0 <= k < |ixs| ==> ixs[k].disk == disk)
    // instantiated only where the address formula is already in play
    && (forall k {:trigger LedgerAddress(location, ixs[k].title, ixs[k].order)} :: 0 <= k < |ixs| ==>
          ixs[k].address == LedgerAddress(location, ixs[k].title, ixs[k].order))
    && (forall k :: 0 <= k < |ixs| ==> ixs[k].address in files)
    && Registered(SlotsOf(ixs))
  }

  /** In a wired catalog the ledger of each index is the one its slot
      names. */
  lemma WiredAddresses(ixs: seq<Index>, location: string, disk: Disk, files: map<string, string>)
    requires Wired(ixs, location, disk, files)
    ensures AddressesOf(ixs) == Addresses(location, SlotsOf(ixs))
  {
    forall k | 0 <= k < |ixs| ensures AddressesOf(ixs)[k] == Addresses(location, SlotsOf(ixs))[k] {
      assert ixs[k].address == LedgerAddress(location, ixs[k].title, ixs[k].order);
    }
  }

  /** Only which ledgers exist matters to the wiring, not what they hold. */
  lemma WiredSameKeys(ixs: seq<Index>, location: string, disk: Disk, files: map<string, string>, files2: map<string, string>)
    requires Wired(ixs, location, disk, files) && files2.Keys == files.Keys
    ensures Wired(ixs, location, disk, files2)
  {
  }

  /** In a wired catalog no other index shares the ledger of index `i`,
      so no other index is that object either. */
  lemma WiredApart(ixs: seq<Index>, location: string, disk: Disk, files: map<string, string>, i: nat)
    requires Wired(ixs, location, disk, files) && i < |ixs|
    ensures forall k :: 0 <= k < |ixs| && k != i ==> ixs[k].address != ixs[i].address && ixs[k] != ixs[i]
  {
    forall k | 0 <= k < |ixs| && k != i
      ensures ixs[k].address != ixs[i].address
    {
      RegisteredApart(SlotsOf(ixs), k, i);
      if ixs[k].address == ixs[i].address {
        assert ixs[k].address == LedgerAddress(location, ixs[k].title, ixs[k].order);
        assert ixs[i].address == LedgerAddress(location, ixs[i].title, ixs[i].order);
        AddressInjective(location, ixs[k].title, ixs[k].order, ixs[i].title, ixs[i].order);
      }
    }
  }

  /** A new index with a new title, whose ledger is touched, keeps the
      catalog wired. */
  lemma WiredAppend(ixs: seq<Index>, location: string, disk: Disk, files: map<string, string>, ind: Index)
    requires Wired(ixs, location, disk, files)
    requires ind.disk == disk && ind.address == LedgerAddress(location, ind.title, ind.order)
    requires ind.title != [] && !HasTitle(TitlesOf(SlotsOf(ixs)), ind.title) && ind.order != -1
    ensures SlotsOf(ixs + [ind]) == AddTitle(SlotsOf(ixs), ind.title, ind.order)
    ensures Wired(ixs + [ind], location, disk, Touch(files, ind.address))
  {
    var r := ixs + [ind];
    assert SlotsOf(r) == SlotsOf(ixs) + [Slot(ind.title, ind.order)];
    assert Registered(SlotsOf(r)) by {
      AddTitleSpec(SlotsOf(ixs), ind.title, ind.order);
    }
    var files' := Touch(files, ind.address);
    forall k | 0 <= k < |r|
      ensures r[k].disk == disk
      ensures r[k].address == LedgerAddress(location, r[k].title, r[k].order)
      ensures r[k].address in files'
    {
      if k < |ixs| {
        assert r[k] == ixs[k];
      }
    }
  }

  /** The indexes of a list that grew by `now[|ixs|..]`. */
  lemma Extend(ixs0: seq<Index>, added: seq<Index>, ixs: seq<Index>, now: seq<Index>)
    requires ixs == ixs0 + added && |now| >= |ixs| && now[..|ixs|] == ixs
    ensures now == ixs0 + (added + now[|ixs|..])
  {
    assert now == now[..|ixs|] + now[|ixs|..];
  }

  lemma Extended(ixs0: seq<Index>, added: seq<Index>, now: seq<Index>)
    requires now == ixs0 + added
    ensures |now| >= |ixs0| && now[..|ixs0|] == ixs0 && now[|ixs0|..] == added
  {
  }

  /** The state of `add_index` with a list part way through: the titles
      taken so far are added, the new indexes follow the old ones and their
      ledgers are touched. */
  ghost predicate Grown(s0: seq<Slot>, done: seq<string>, base: seq<Index>, added: seq<Index>, now: seq<Index>,
                        files0: map<string, string>, files: map<string, string>)
  {
    && SlotsOf(now) == AddEach(s0, done)
    && now == base + added
    && files == TouchAll(files0, AddressesOf(added))
  }

  /** Including one more title keeps `Grown`. */
  lemma GrowStep(s0: seq<Slot>, ts: seq<string>, i: nat, base: seq<Index>, added: seq<Index>, mid: seq<Index>, now: seq<Index>,
                 files0: map<string, string>, filesMid: map<string, string>, files: map<string, string>)
    requires i < |ts| && Grown(s0, ts[..i], base, added, mid, files0, filesMid)
    requires SlotsOf(now) == AddTitle(SlotsOf(mid), ts[i], -1)
    requires |now| >= |mid| && now[..|mid|] == mid
    requires files == TouchAll(filesMid, AddressesOf(now[|mid|..]))
    ensures Grown(s0, ts[..i + 1], base, added + now[|mid|..], now, files0, files)
  {
    var more := now[|mid|..];
    AddEachStep(s0, ts, i, SlotsOf(mid), SlotsOf(now));
    Extend(base, added, mid, now);
    TouchAllAppend(files0, AddressesOf(added), AddressesOf(more));
    AddressesAppend(added, more);
  }

  lemma AddressesAppend(a: seq<Index>, b: seq<Index>)
    ensures AddressesOf(a + b) == AddressesOf(a) + AddressesOf(b)
  {
  }

  /** Removing an index and its ledger keeps the catalog wired, when no
      other index shares that ledger. */
  lemma WiredRemove(ixs: seq<Index>, location: string, disk: Disk, files: map<string, string>, i: nat)
    requires Wired(ixs, location, disk, files) && i < |ixs|
    requires forall k :: 0 <= k < |ixs| && k != i ==> ixs[k].address != ixs[i].address
    ensures SlotsOf(ixs[..i] + ixs[i + 1..]) == SlotsOf(ixs)[..i] + SlotsOf(ixs)[i + 1..]
    ensures Wired(ixs[..i] + ixs[i + 1..], location, disk, files - {ixs[i].address})
  {
    var r := ixs[..i] + ixs[i + 1..];
    SlotsOfRemove(ixs, i);
    RegisteredRemove(SlotsOf(ixs), i);
    forall k | 0 <= k < |r|
      ensures r[k].disk == disk && r[k].address in files - {ixs[i].address}
      ensures r[k].address == LedgerAddress(location, r[k].title, r[k].order)
    {
      var k' := if k < i then k else k + 1;
      assert r[k] == ixs[k'];
      assert ixs[k'].address == LedgerAddress(location, ixs[k'].title, ixs[k'].order);
    }
  }

  lemma SlotsOfRemove(ixs: seq<Index>, i: nat)
    requires i < |ixs|
    ensures SlotsOf(ixs[..i] + ixs[i + 1..]) == SlotsOf(ixs)[..i] + SlotsOf(ixs)[i + 1..]
  {
    var r := ixs[..i] + ixs[i + 1..];
    forall k | 0 <= k < |r| ensures SlotsOf(r)[k] == (SlotsOf(ixs)[..i] + SlotsOf(ixs)[i + 1..])[k] {
      if k >= i {
        assert r[k] == ixs[k + 1];
      }
    }
  }

  /** What a ledger reads as once touched: its text, or the empty file
      that touching creates. */
  function Prior(files: map<string, string>, address: string): string
  {
    if address in files then files[address] else ""
  }

  /** `files` is `files0` with every address of `addrs` touched: those
      not there before are created empty, nothing else changes. */
  ghost predicate Touched(files: map<string, string>, files0: map<string, string>, addrs: seq<string>)
  {
    && (forall a :: a in files <==> a in files0 || a in addrs)
    && (forall a :: a in files ==> files[a] == Prior(files0, a))
  }

  /** `files` has the files of `files0` and those of `addrs`, and only the
      files of `addrs` may have new text. */
  ghost predicate Kept(files: map<string, string>, files0: map<string, string>, addrs: seq<string>)
  {
    && (forall a :: a in files <==> a in files0 || a in addrs)
    && (forall a :: a in files0 && a !in addrs ==> files[a] == files0[a])
  }

  lemma TouchedKept(files: map<string, string>, files0: map<string, string>, addrs: seq<string>)
    requires Touched(files, files0, addrs)
    ensures Kept(files, files0, addrs)
  {
  }

  /** Touching leaves every ledger reading as it did. */
  lemma TouchedPrior(files: map<string, string>, files0: map<string, string>, addrs: seq<string>)
    requires Touched(files, files0, addrs)
    ensures forall a :: Prior(files, a) == Prior(files0, a)
  {
  }

  /** Touching the ledgers of some indexes, then those of indexes that
      include them, touches the latter. */
  lemma TouchedTwice(files0: map<string, string>, files1: map<string, string>, files2: map<string, string>,
                     mid: seq<Index>, now: seq<Index>)
    requires Touched(files1, files0, AddressesOf(mid))
    requires Kept(files2, files1, AddressesOf(now))
    requires forall ix :: ix in mid ==> ix in now
    ensures Kept(files2, files0, AddressesOf(now))
    ensures Touched(files2, files1, AddressesOf(now)) ==> Touched(files2, files0, AddressesOf(now))
  {
    AddressesIn(mid);
    AddressesIn(now);
  }

  /** Rewriting ledgers after touching them keeps the other files. */
  lemma RewrittenKept(files0: map<string, string>, files1: map<string, string>, files2: map<string, string>, addrs: seq<string>)
    requires Touched(files1, files0, addrs)
    requires files2.Keys == files1.Keys
    requires forall a :: a in files2 && a !in addrs ==> files2[a] == files1[a]
    ensures Kept(files2, files0, addrs)
  {
  }

  /** Reconciled indexes whose ledgers were only touched: what each ledger
      reads as is its earlier text, and each index is already in
      `sort_contents` form. */
  lemma ReconciledIndexes(ixs: seq<Index>, files: map<string, string>, files0: map<string, string>, adds: seq<seq<string>>)
    requires |adds| == |ixs| && Touched(files, files0, AddressesOf(ixs))
    requires forall k :: 0 <= k < |ixs| ==>
               EntriesOf(ixs[k].contents) == Reconciled(Decode(files[ixs[k].address]), adds[k])
    ensures forall k :: 0 <= k < |ixs| ==>
              EntriesOf(ixs[k].contents) == Reconciled(Decode(Prior(files0, ixs[k].address)), adds[k])
    ensures forall k :: 0 <= k < |ixs| ==>
              Canonical(ixs[k].contents, TermWords(ixs[k].contents)) == ixs[k].contents
  {
    forall k | 0 <= k < |ixs|
      ensures EntriesOf(ixs[k].contents) == Reconciled(Decode(Prior(files0, ixs[k].address)), adds[k])
      ensures Canonical(ixs[k].contents, TermWords(ixs[k].contents)) == ixs[k].contents
    {
      assert AddressesOf(ixs)[k] == ixs[k].address;
      ReconciledTerms(ixs[k].contents, Decode(files[ixs[k].address]), adds[k]);
    }
  }

  /** Terms holding reconciled entries are already in `sort_contents`
      form. */
  lemma ReconciledTerms(ts: seq<Term>, es: seq<Entry>, added: seq<string>)
    requires EntriesOf(ts) == Reconciled(es, added)
    ensures Canonical(ts, TermWords(ts)) == ts
  {
    ReconciledSpec(es, added);
    EntriesWords(ts);
    CanonicalOfIncreasing(ts, TermWords(ts));
  }

  lemma {:induction false} TouchAllTouched(files0: map<string, string>, addrs: seq<string>)
    ensures Touched(TouchAll(files0, addrs), files0, addrs)
  {
    if addrs != [] {
      var n := |addrs| - 1;
      TouchAllTouched(files0, addrs[..n]);
      assert forall a :: a in addrs <==> a in addrs[..n] || a == addrs[n];
    }
  }

  /** Touching more addresses that already exist changes nothing. */
  lemma TouchedWiden(files: map<string, string>, files0: map<string, string>, a1: seq<string>, a2: seq<string>)
    requires Touched(files, files0, a1)
    requires forall a :: a in a1 ==> a in a2
    requires forall a :: a in a2 ==> a in a1 || a in files0
    ensures Touched(files, files0, a2)
  {
  }

  /** The ledgers of some indexes are the addresses those indexes hold. */
  lemma AddressesIn(ixs: seq<Index>)
    ensures forall a :: a in AddressesOf(ixs) <==> exists ix :: ix in ixs && ix.address == a
  {
    forall a | a in AddressesOf(ixs) ensures exists ix :: ix in ixs && ix.address == a {
      var k :| 0 <= k < |ixs| && AddressesOf(ixs)[k] == a;
      assert ixs[k] in ixs;
    }
    forall a | exists ix :: ix in ixs && ix.address == a ensures a in AddressesOf(ixs) {
      var ix :| ix in ixs && ix.address == a;
      var k :| 0 <= k < |ixs| && ixs[k] == ix;
      assert AddressesOf(ixs)[k] == a;
    }
  }

  /** Indexes that grew twice, each time touching the new ledgers. */
  lemma GrowTouched(ixs: seq<Index>, before: seq<Index>, now: seq<Index>,
                    files: map<string, string>, mid: map<string, string>, after: map<string, string>)
    requires |ixs| <= |before| <= |now| && before[..|ixs|] == ixs && now[..|before|] == before
    requires mid == TouchAll(files, AddressesOf(before[|ixs|..]))
    requires after == TouchAll(mid, AddressesOf(now[|before|..]))
    ensures now[..|ixs|] == ixs
    ensures after == TouchAll(files, AddressesOf(now[|ixs|..]))
  {
    assert now[|ixs|..] == before[|ixs|..] + now[|before|..];
    AddressesAppend(before[|ixs|..], now[|before|..]);
    TouchAllAppend(files, AddressesOf(before[|ixs|..]), AddressesOf(now[|before|..]));
  }

  /** Indexes that grew at the end, with the new ledgers touched: the
      ledger files are the old ones with every index's ledger touched. */
  lemma GrownTouched(ixs0: seq<Index>, grown: seq<Index>, files0: map<string, string>, files: map<string, string>)
    requires |grown| >= |ixs0| && grown[..|ixs0|] == ixs0
    requires forall k :: 0 <= k < |ixs0| ==> ixs0[k].address in files0
    requires files == TouchAll(files0, AddressesOf(grown[|ixs0|..]))
    ensures Touched(files, files0, AddressesOf(grown))
  {
    var added := AddressesOf(grown[|ixs0|..]);
    TouchAllTouched(files0, added);
    forall a | a in AddressesOf(grown) ensures a in added || a in files0 {
      var k :| 0 <= k < |grown| && AddressesOf(grown)[k] == a;
      if k < |ixs0| {
        assert grown[..|ixs0|][k] == grown[k];
      } else {
        assert added[k - |ixs0|] == a;
      }
    }
    forall a | a in added ensures a in AddressesOf(grown) {
      var k :| 0 <= k < |added| && added[k] == a;
      assert AddressesOf(grown)[|ixs0| + k] == a;
    }
    TouchedWiden(files, files0, added, AddressesOf(grown));
  }

  /** Touching is blind to the order of the ledgers. */
  lemma PermutedTouched(xs: seq<Index>, ys: seq<Index>, files: map<string, string>, files0: map<string, string>)
    requires multiset(xs) == multiset(ys)
    requires Touched(files, files0, AddressesOf(xs))
    ensures Touched(files, files0, AddressesOf(ys))
  {
    AddressesIn(xs);
    AddressesIn(ys);
    forall ix | ix in xs ensures ix in ys {
      assert ix in multiset(xs);
    }
    forall ix | ix in ys ensures ix in xs {
      assert ix in multiset(ys);
    }
    TouchedWiden(files, files0, AddressesOf(xs), AddressesOf(ys));
  }

  /** Sorting the indexes by order keeps the catalog wired and permutes
      them. */
  lemma WiredSorted(ixs: seq<Index>, location: string, disk: Disk, files: map<string, string>)
    requires Wired(ixs, location, disk, files)
    ensures var js := ByOrder(SlotsOf(ixs));
            && SlotsOf(Select(ixs, js)) == Select(SlotsOf(ixs), js)
            && multiset(Select(ixs, js)) == multiset(ixs)
            && Wired(Select(ixs, js), location, disk, files)
  {
    var slots := SlotsOf(ixs);
    var js := ByOrder(slots);
    IntLessStrictTotal();
    StableOrderCorrect(OrdersOf(slots), IntLess);
    SelectPermutation(ixs, js);
    ByOrderRegistered(slots);
    var r := Select(ixs, js);
    assert SlotsOf(r) == Select(slots, js);
    forall k | 0 <= k < |r|
      ensures r[k].disk == disk && r[k].address in files
      ensures r[k].address == LedgerAddress(location, r[k].title, r[k].order)
    {
      assert r[k] == ixs[js[k]];
      assert ixs[js[k]].address == LedgerAddress(location, ixs[js[k]].title, ixs[js[k]].order);
    }
  }

  /** The first loop of `renew`: of the ledger names listed, the first for
      each abridged title. */
  method FirstLedgers(ledgers: seq<string>) returns (stems: seq<string>)
    ensures stems == FirstPerTitle(ledgers)
  {
    stems := [];
    var abridged: seq<string> := [];
    for i := 0 to |ledgers|
      invariant stems == FirstPerTitle(ledgers[..i])
      invariant abridged == AbridgedAll(stems)
    {
      FirstPerTitleStep(ledgers, i);
      var a := Abridged(ledgers[i]);
      if a !in abridged {
        abridged := abridged + [a];
        stems := stems + [ledgers[i]];
      }
    }
    assert ledgers[..|ledgers|] == ledgers;
  }

  /** One more stored file for `Collected`. */
  lemma CollectedStep(files: seq<StoredFile>, f: nat, order: int)
    requires f < |files|
    ensures var ts := Tokens(files[f]);
            Collected(files[..f + 1], order)
              == Collected(files[..f], order) + if 1 <= order <= |ts| && ts[order - 1] != [] then [ts[order - 1]] else []
  {
    assert files[..f + 1][..f] == files[..f];
  }

  /** The storage loop of `refresh_indexes_list`: a list per order in
      `orders`, and each non-empty token of each stem appended to the list
      of the order one past its position, when there is such a list. */
  method Gather(files: seq<StoredFile>, orders: seq<int>) returns (found: map<int, seq<string>>)
    ensures forall o :: o in found <==> o in orders
    ensures forall o :: o in found ==> found[o] == Collected(files, o)
  {
    found := map o | o in orders :: [];
    for f := 0 to |files|
      invariant forall o :: o in found <==> o in orders
      invariant forall o :: o in found ==> found[o] == Collected(files[..f], o)
    {
      var tokens := Tokens(files[f]);
      for i := 0 to |tokens|
        invariant forall o :: o in found <==> o in orders
        invariant forall o :: o in found ==>
                    found[o] == Collected(files[..f], o) + if 1 <= o <= i && tokens[o - 1] != [] then [tokens[o - 1]] else []
      {
        if tokens[i] != [] && i + 1 in found {
          found := found[i + 1 := found[i + 1] + [tokens[i]]];
        }
      }
      forall o | o in found ensures found[o] == Collected(files[..f + 1], o) {
        CollectedStep(files, f, o);
      }
    }
    assert files[..|files|] == files;
  }

  /** The inner loop of `pull`'s first loop: the words of the terms whose
      flag is clear, appended to the list of `order`. */
  method AppendPending(wanted: map<int, seq<string>>, order: int, ts: seq<Term>) returns (r: map<int, seq<string>>)
    requires order in wanted
    ensures r == wanted[order := wanted[order] + Pending(EntriesOf(ts))]
  {
    ghost var es := EntriesOf(ts);
    r := wanted;
    assert wanted[order] + Pending(es[..0]) == wanted[order];
    for j := 0 to |ts|
      invariant r == wanted[order := wanted[order] + Pending(es[..j])]
    {
      PendingStep(es, j);
      if !ts[j].checked {
        assert wanted[order] + Pending(es[..j + 1]) == r[order] + [ts[j].word];
        r := r[order := r[order] + [ts[j].word]];
      } else {
        assert wanted[order] + Pending(es[..j + 1]) == r[order];
      }
    }
    assert es[..|es|] == es;
  }

  /** The inner loop of `pull`'s second loop: the path of one stored file
      once per position whose token is in the list of the order one past
      it. */
  method PullFile(wanted: map<int, seq<string>>, ghost targets: seq<Target>, file: StoredFile) returns (hits: seq<string>)
    requires Gathered(wanted, targets)
    ensures hits == seq(|Positions(targets, Tokens(file))|, _ => file.path)
  {
    var tokens := Tokens(file);
    hits := [];
    for i := 0 to |tokens|
      invariant hits == seq(|Positions(targets, tokens[..i])|, _ => file.path)
    {
      GatheredWanted(wanted, targets, i, tokens[i]);
      PositionsStep(targets, tokens, i);
      CopiesStep(file.path, |Positions(targets, tokens[..i])|);
      if i + 1 in wanted && tokens[i] in wanted[i + 1] {
        hits := hits + [file.path];
      }
    }
    assert tokens[..|tokens|] == tokens;
  }

  /** What deleting did, against the indexes `ixs0` and ledger directory
      `files0` from before: every index in `ixs` was there before, and the
      files removed from `files` are exactly the ledgers of the indexes that
      went. */
  ghost predicate Pruned(ixs: seq<Index>, files: map<string, string>, ixs0: seq<Index>, files0: map<string, string>)
  {
    && (forall ix :: ix in ixs ==> ix in ixs0)
    && (forall a :: a in files <==> a in files0 && (a in AddressesOf(ixs) || a !in AddressesOf(ixs0)))
    && (forall a :: a in files ==> files[a] == files0[a])
  }

  lemma PrunedNothing(ixs: seq<Index>, files: map<string, string>)
    ensures Pruned(ixs, files, ixs, files)
  {
  }

  /** Removing one more index, whose ledger no other index shares, and its
      ledger. */
  lemma PrunedRemove(ixs: seq<Index>, files: map<string, string>, ixs0: seq<Index>, files0: map<string, string>, j: nat)
    requires Pruned(ixs, files, ixs0, files0) && j < |ixs|
    requires forall k :: 0 <= k < |ixs| && k != j ==> ixs[k].address != ixs[j].address
    ensures Pruned(ixs[..j] + ixs[j + 1..], files - {ixs[j].address}, ixs0, files0)
  {
    var r := ixs[..j] + ixs[j + 1..];
    forall ix | ix in r ensures ix in ixs0 {
      var k :| 0 <= k < |r| && r[k] == ix;
      var k' := if k < j then k else k + 1;
      assert r[k] == ixs[k'];
    }
    forall a ensures a in AddressesOf(r) <==> a in AddressesOf(ixs) && a != ixs[j].address {
      if a in AddressesOf(r) {
        var k :| 0 <= k < |r| && AddressesOf(r)[k] == a;
        var k' := if k < j then k else k + 1;
        assert r[k] == ixs[k'];
      }
      if a in AddressesOf(ixs) && a != ixs[j].address {
        var k :| 0 <= k < |ixs| && AddressesOf(ixs)[k] == a;
        assert k != j;
        var k' := if k < j then k else k - 1;
        assert r[k'] == ixs[k];
      }
    }
    assert ixs[j].address in AddressesOf(ixs0) by {
      assert ixs[j] in ixs;
      var k :| 0 <= k < |ixs0| && ixs0[k] == ixs[j];
      assert AddressesOf(ixs0)[k] == ixs[j].address;
    }
  }

  /** A list of titles is deleted one title after the other. */
  lemma DeleteEachStep(slots: seq<Slot>, ts: seq<string>, i: nat, before: seq<Slot>, after: seq<Slot>)
    requires i < |ts|
    requires before == DeleteEach(slots, ts[..i]) && after == DeleteTitle(before, ts[i])
    ensures after == DeleteEach(slots, ts[..i + 1])
  {
    assert ts[..i + 1][..i] == ts[..i];
  }

  /** A list of titles is added one title after the other. */
  lemma AddEachStep(slots: seq<Slot>, ts: seq<string>, i: nat, before: seq<Slot>, after: seq<Slot>)
    requires i < |ts|
    requires before == AddEach(slots, ts[..i]) && after == AddTitle(before, ts[i], -1)
    ensures after == AddEach(slots, ts[..i + 1])
  {
    assert ts[..i + 1][..i] == ts[..i];
  }

  /** A title the catalog knows adds nothing. */
  lemma KnownTitle(slots: seq<Slot>, title: string)
    requires exists k :: 0 <= k < |slots| && Lower(slots[k].title) == Lower(title)
    ensures AddTitle(slots, title, -1) == slots
  {
    var k :| 0 <= k < |slots| && Lower(slots[k].title) == Lower(title);
    assert TitlesOf(slots)[k] == slots[k].title;
  }

  class Scoro {
    const storage: string
    const location: string
    const disk: Disk
    var indexes: seq<Index>

    /** Every index shares the catalog's ledger directory, its ledger is
        `<location>/<title>_<order>.lst` and exists, and the titles are
        non-empty and unique ignoring case. */
    ghost predicate Valid()
      reads this, disk
    {
      Wired(indexes, location, disk, disk.files)
    }

    /** In a valid catalog every ledger exists and no two indexes are the
        same object or share a ledger file. */
    lemma ValidApart()
      requires Valid()
      ensures forall k :: 0 <= k < |indexes| ==> indexes[k].address in disk.files
      ensures forall j, k :: 0 <= j < k < |indexes| ==>
                indexes[j].address != indexes[k].address && indexes[j] != indexes[k]
    {
      forall j, k | 0 <= j < k < |indexes|
        ensures indexes[j].address != indexes[k].address && indexes[j] != indexes[k]
      {
        WiredApart(indexes, location, disk, disk.files, k);
      }
    }

    /** What `settle` leaves behind: every index holds its terms in word
        order and its ledger file holds exactly those terms. */
    ghost predicate Settled()
      requires Valid()
      reads this, disk, set ix | ix in indexes, set ix, t | ix in indexes && t in ix.contents :: t
    {
      forall k :: 0 <= k < |indexes| ==>
        Increasing(TermWords(indexes[k].contents)) && disk.files[indexes[k].address] == Encode(EntriesOf(indexes[k].contents))
    }

    /** `__init__`, lines up to the directories: both paths end in exactly
        one '/', an empty path gives the default, and there are no indexes
        yet. */
    constructor(storage: string, location: string, disk: Disk)
      ensures this.storage == Normalise(storage, "./storage/")
      ensures this.location == Normalise(location, "./indexes/")
      ensures this.disk == disk && indexes == []
      ensures Valid()
    {
      this.storage := Normalise(storage, "./storage/");
      this.location := Normalise(location, "./indexes/");
      this.disk := disk;
      indexes := [];
    }

    /** `is_index`: some index has this title, ignoring case. */
    function IsIndex(title: string): (found: bool)
      reads this
      ensures found <==> exists k :: 0 <= k < |indexes| && Lower(indexes[k].title) == Lower(title)
    {
      var titles := TitlesOf(SlotsOf(indexes));
      assert forall k :: 0 <= k < |indexes| ==> titles[k] == indexes[k].title;
      HasTitle(titles, title)
    }

    /** `get_indexes_names`: each title up to its first '_'. */
    function Names(): (names: seq<string>)
      reads this
      ensures |names| == |indexes|
      ensures forall k :: 0 <= k < |indexes| ==>
                '_' !in names[k] && |names[k]| <= |indexes[k].title| && indexes[k].title[..|names[k]|] == names[k]
                && (names[k] == indexes[k].title <==> '_' !in indexes[k].title)
    {
      AbridgedAll(TitlesOf(SlotsOf(indexes)))
    }

    /** `get_open_order`: the taken orders are gathered and sorted, then the
        first of 1, ..., n-1 that is not taken is returned, or n+1 when
        all are (n is the number of indexes). */
    method GetOpenOrder() returns (o: int)
      ensures o == OpenOrder(OrdersOf(SlotsOf(indexes)))
    {
      var taken: seq<int> := [];
      for i := 0 to |indexes|
        invariant taken == OrdersOf(SlotsOf(indexes))[..i]
      {
        taken := taken + [indexes[i].order];
      }
      assert taken == OrdersOf(SlotsOf(indexes));
      ghost var unsorted := taken;
      IntLessStrictTotal();
      StableOrderCorrect(taken, IntLess);
      SelectPermutation(taken, StableOrder(taken, IntLess));
      taken := Select(taken, StableOrder(taken, IntLess));
      OpenOrderPermutation(unsorted, taken);
      var i := 1;
      while i < |taken|
        invariant 1 <= i
        invariant forall j :: 1 <= j < i ==> j in taken
      {
        if i !in taken {
          return i;
        }
        i := i + 1;
      }
      return |taken| + 1;
    }

    /** `add_index` with a string: an empty title is refused (False); a
        title already known ignoring case changes nothing; any other title
        gets a fresh, empty index at the end, with the given order or the
        open order for -1, and its ledger file is touched. */
    method AddOne(title: string, order: int) returns (ok: bool)
      requires Valid()
      modifies this, disk
      ensures Valid()
      ensures ok <==> title != []
      ensures SlotsOf(indexes) == AddTitle(old(SlotsOf(indexes)), title, order)
      ensures |indexes| >= |old(indexes)| && indexes[..|old(indexes)|] == old(indexes)
      ensures forall k :: |old(indexes)| <= k < |indexes| ==> fresh(indexes[k]) && indexes[k].contents == []
      ensures disk.files == TouchAll(old(disk.files), AddressesOf(indexes[|old(indexes)|..]))
    {
      if title == [] {
        assert AddressesOf(indexes[|indexes|..]) == [];
        return false;
      }
      var o := order;
      if o == -1 {
        o := GetOpenOrder();
      }
      if !IsIndex(title) {
        assert o != -1 && (order != -1 ==> o == order);
        Append(title, o);
      } else {
        assert AddressesOf(indexes[|indexes|..]) == [];
      }
      ok := true;
    }

    /** The append of `add_index`: a new index for `title` with `order`,
        fresh and empty, at the end of the list; its ledger is touched. */
    method Append(title: string, order: int)
      requires Valid()
      requires title != [] && order != -1 && !HasTitle(TitlesOf(SlotsOf(indexes)), title)
      modifies this, disk
      ensures Valid()
      ensures SlotsOf(indexes) == AddTitle(old(SlotsOf(indexes)), title, order)
      ensures |indexes| == |old(indexes)| + 1 && indexes[..|old(indexes)|] == old(indexes)
      ensures fresh(indexes[|old(indexes)|]) && indexes[|old(indexes)|].contents == []
      ensures disk.files == TouchAll(old(disk.files), AddressesOf(indexes[|old(indexes)|..]))
    {
      var ind := new Index(title, location, order, disk);
      WiredAppend(indexes, location, disk, old(disk.files), ind);
      indexes := indexes + [ind];
      assert AddressesOf(indexes[|old(indexes)|..]) == [ind.address];
    }

    /** One title of a list: added with order -1 unless already known. */
    method Include(t: string)
      requires Valid()
      modifies this, disk
      ensures Valid()
      ensures SlotsOf(indexes) == AddTitle(old(SlotsOf(indexes)), t, -1)
      ensures |indexes| >= |old(indexes)| && indexes[..|old(indexes)|] == old(indexes)
      ensures forall k :: |old(indexes)| <= k < |indexes| ==> fresh(indexes[k])
      ensures disk.files == TouchAll(old(disk.files), AddressesOf(indexes[|old(indexes)|..]))
    {
      if !IsIndex(t) {
        var _ := AddOne(t, -1);
      } else {
        KnownTitle(SlotsOf(indexes), t);
        assert AddressesOf(indexes[|indexes|..]) == [];
      }
    }

    /** `add_index` with a list: each title not yet known is added in turn
        with order -1. */
    method AddMany(ts: seq<string>)
      requires Valid()
      modifies this, disk
      ensures Valid()
      ensures SlotsOf(indexes) == AddEach(old(SlotsOf(indexes)), ts)
      ensures |indexes| >= |old(indexes)| && indexes[..|old(indexes)|] == old(indexes)
      ensures forall k :: |old(indexes)| <= k < |indexes| ==> fresh(indexes[k])
      ensures disk.files == TouchAll(old(disk.files), AddressesOf(indexes[|old(indexes)|..]))
    {
      ghost var s0 := SlotsOf(indexes);
      ghost var added: seq<Index> := [];
      for i := 0 to |ts|
        invariant Valid()
        invariant Grown(s0, ts[..i], old(indexes), added, indexes, old(disk.files), disk.files)
        invariant forall k :: |old(indexes)| <= k < |indexes| ==> fresh(indexes[k])
      {
        ghost var ixs := indexes;
        ghost var files := disk.files;
        Include(ts[i]);
        GrowStep(s0, ts, i, old(indexes), added, ixs, indexes, old(disk.files), files, disk.files);
        forall k | |old(indexes)| <= k < |indexes| ensures fresh(indexes[k]) {
          if k < |ixs| {
            assert indexes[k] == ixs[k];
          }
        }
        added := added + indexes[|ixs|..];
      }
      assert ts[..|ts|] == ts;
      Extended(old(indexes), added, indexes);
    }

    /** `add_index`: an empty title or list is refused (False); otherwise
        the slots become `AddTitles` of the old ones (a list adds its titles
        one by one with order -1), the old indexes stay in place, each new
        index is fresh and empty, and each new ledger file is touched. */
    method AddIndex(titles: Titles, order: int) returns (ok: bool)
      requires Valid()
      modifies this, disk
      ensures Valid()
      ensures ok <==> Given(titles)
      ensures SlotsOf(indexes) == AddTitles(old(SlotsOf(indexes)), titles, order)
      ensures |indexes| >= |old(indexes)| && indexes[..|old(indexes)|] == old(indexes)
      ensures forall k :: |old(indexes)| <= k < |indexes| ==> fresh(indexes[k])
      ensures disk.files == TouchAll(old(disk.files), AddressesOf(indexes[|old(indexes)|..]))
    {
      match titles
      case One(title) =>
        ok := AddOne(title, order);
      case Many(ts) =>
        AddMany(ts);
        ok := ts != [];
    }

    /** `settle`: `write_contents` on every index. Each index is left in
        `sort_contents` form and its ledger holds exactly its terms; no file
        is created or removed and no other file changes. */
    method Settle()
      requires Valid()
      modifies disk, set ix | ix in indexes
      ensures Valid()
      ensures forall k :: 0 <= k < |indexes| ==>
                indexes[k].contents == Canonical(old(indexes[k].contents), TermWords(old(indexes[k].contents)))
      ensures Settled()
      ensures disk.files.Keys == old(disk.files).Keys
      ensures forall a :: a in disk.files && a !in AddressesOf(indexes) ==> disk.files[a] == old(disk.files)[a]
    {
      ghost var before := ContentsOf(indexes);
      ghost var want := CanonicalAll(before);
      ghost var encoded := EncodedAll(want);
      for i := 0 to |indexes|
        invariant Settling(i, before, want, encoded, old(disk.files))
      {
        EntriesStable(want[i]);
        SettleStep(i, before, want, encoded, old(disk.files));
      }
      WiredSameKeys(indexes, location, disk, old(disk.files), disk.files);
      forall k | 0 <= k < |indexes| ensures disk.files[indexes[k].address] == Encode(EntriesOf(indexes[k].contents)) {
        EntriesStable(want[k]);
      }
      forall k | 0 <= k < |indexes| ensures Increasing(TermWords(indexes[k].contents)) {
        CanonicalIncreasing(before[k]);
      }
    }

    /** The first `i` indexes written (their ledgers hold `encoded`), the
        others untouched. */
    ghost predicate Settling(i: nat, before: seq<seq<Term>>, want: seq<seq<Term>>, encoded: seq<string>, files: map<string, string>)
      reads this, disk, set ix | ix in indexes
    {
      && Wired(indexes, location, disk, files)
      && i <= |indexes| == |before| == |want| == |encoded|
      && disk.files.Keys == files.Keys
      && (forall k :: 0 <= k < i ==> indexes[k].contents == want[k])
      && (forall k :: 0 <= k < i ==> disk.files[indexes[k].address] == encoded[k])
      && (forall k :: i <= k < |indexes| ==> indexes[k].contents == before[k])
      && (forall a :: a in disk.files && a !in AddressesOf(indexes)[..i] ==> disk.files[a] == files[a])
    }

    /** `write_contents` on the next index. */
    method SettleStep(i: nat, ghost before: seq<seq<Term>>, ghost want: seq<seq<Term>>, ghost encoded: seq<string>, ghost files: map<string, string>)
      requires i < |indexes| && Settling(i, before, want, encoded, files)
      requires want[i] == Canonical(before[i], TermWords(before[i])) && encoded[i] == Encode(EntriesOf(want[i]))
      modifies disk, indexes[i]
      ensures Settling(i + 1, before, want, encoded, files)
    {
      WiredApart(indexes, location, disk, files, i);
      label start:
      ghost var c := indexes[i].contents;
      indexes[i].WriteContents();
      assert c == before[i];
      EntriesStable@start(want[i]);
    }

    /** `reset`: `clear_contents` on every index, so every index is empty
        and every ledger is truncated; no other file changes. */
    method Reset()
      requires Valid()
      modifies disk, set ix | ix in indexes
      ensures Valid()
      ensures forall k :: 0 <= k < |indexes| ==> indexes[k].contents == [] && disk.files[indexes[k].address] == ""
      ensures disk.files.Keys == old(disk.files).Keys
      ensures forall a :: a in disk.files && a !in AddressesOf(indexes) ==> disk.files[a] == old(disk.files)[a]
    {
      for i := 0 to |indexes|
        invariant Clearing(i, old(disk.files))
      {
        ClearStep(i, old(disk.files));
      }
    }

    /** The first `i` indexes cleared. */
    ghost predicate Clearing(i: nat, files: map<string, string>)
      reads this, disk, set ix | ix in indexes
    {
      && Valid()
      && i <= |indexes|
      && disk.files.Keys == files.Keys
      && (forall k :: 0 <= k < i ==> indexes[k].contents == [] && disk.files[indexes[k].address] == "")
      && (forall a :: a in disk.files && a !in AddressesOf(indexes)[..i] ==> disk.files[a] == files[a])
    }

    /** `clear_contents` on the next index. */
    method ClearStep(i: nat, ghost files: map<string, string>)
      requires i < |indexes| && Clearing(i, files)
      modifies disk, indexes[i]
      ensures Clearing(i + 1, files)
    {
      WiredApart(indexes, location, disk, disk.files, i);
      indexes[i].ClearContents();
    }

    /** The search loop of `delete_index`: the position of the first index
        whose title matches `title` (see `Doomed`), if any. */
    method FindDoomed(title: string) returns (found: Option<nat>)
      ensures found == FirstDoomed(TitlesOf(SlotsOf(indexes)), title)
    {
      var arg := Abridged(title);
      var i := 0;
      while i < |indexes| && Abridged(Lower(indexes[i].title)) != Lower(arg)
        invariant i <= |indexes|
        invariant forall j :: 0 <= j < i ==> !Doomed(indexes[j].title, title)
      {
        i := i + 1;
      }
      ghost var titles := TitlesOf(SlotsOf(indexes));
      assert forall j :: 0 <= j < |indexes| ==> titles[j] == indexes[j].title;
      if i == |indexes| {
        return None;
      }
      ghost var r := FirstDoomed(titles, title);
      assert r.Some? by {
        assert Doomed(titles[i], title);
      }
      assert !(r.value < i) && !(i < r.value);
      return Some(i);
    }

    /** `delete_index` with a string: an empty title or one whose part
        before '_' matches no index (ignoring case, see `Doomed`) is refused
        (False) and nothing changes; otherwise the first matching index is
        removed from the list, the others keep their order, and its ledger
        file is removed. */
    method DeleteOne(title: string) returns (ok: bool)
      requires Valid()
      modifies this, disk
      ensures Valid()
      ensures ok <==> title != [] && FirstDoomed(TitlesOf(old(SlotsOf(indexes))), title).Some?
      ensures SlotsOf(indexes) == DeleteTitle(old(SlotsOf(indexes)), title)
      ensures !ok ==> indexes == old(indexes) && disk.files == old(disk.files)
      ensures ok ==> var i := FirstDoomed(TitlesOf(old(SlotsOf(indexes))), title).value;
                     && indexes == old(indexes)[..i] + old(indexes)[i + 1..]
                     && disk.files == old(disk.files) - {old(indexes)[i].address}
    {
      if title == [] {
        return false;
      }
      var found := FindDoomed(title);
      if found.None? {
        return false;
      }
      var i := found.value;
      WiredApart(indexes, location, disk, disk.files, i);
      WiredRemove(indexes, location, disk, disk.files, i);
      var doomed := indexes[i];
      if doomed.address in disk.files {
        disk.files := disk.files - {doomed.address};
      }
      indexes := indexes[..i] + indexes[i + 1..];
      ok := true;
    }

    /** The first `i` titles of `ts` deleted. */
    ghost predicate Deleting(i: nat, ts: seq<string>, slots: seq<Slot>, ixs: seq<Index>, files: map<string, string>)
      reads this, disk
    {
      && Valid()
      && i <= |ts|
      && SlotsOf(indexes) == DeleteEach(slots, ts[..i])
      && Pruned(indexes, disk.files, ixs, files)
    }

    /** `delete_index` on the next title of a list. */
    method DeleteNext(ts: seq<string>, i: nat, ghost slots: seq<Slot>, ghost ixs: seq<Index>, ghost files: map<string, string>)
      requires i < |ts| && Deleting(i, ts, slots, ixs, files)
      modifies this, disk
      ensures Deleting(i + 1, ts, slots, ixs, files)
    {
      ghost var before := indexes;
      ghost var found := FirstDoomed(TitlesOf(SlotsOf(indexes)), ts[i]);
      if found.Some? {
        WiredApart(indexes, location, disk, disk.files, found.value);
      }
      var _ := DeleteOne(ts[i]);
      DeleteEachStep(slots, ts, i, SlotsOf(before), SlotsOf(indexes));
      if indexes != before {
        PrunedRemove(before, old(disk.files), ixs, files, found.value);
      }
    }

    /** `delete_index`: an empty title or list is refused (False), and so is
        a string that matches no index; the slots become `DeleteTitles` of
        the old ones (a list deletes its titles one by one), and the ledgers
        of the deleted indexes are removed. */
    method DeleteIndex(titles: Titles) returns (ok: bool)
      requires Valid()
      modifies this, disk
      ensures Valid()
      ensures ok <==> match titles
                      case One(t) => t != [] && FirstDoomed(TitlesOf(old(SlotsOf(indexes))), t).Some?
                      case Many(ts) => ts != []
      ensures SlotsOf(indexes) == DeleteTitles(old(SlotsOf(indexes)), titles)
      ensures Pruned(indexes, disk.files, old(indexes), old(disk.files))
    {
      match titles
      case One(title) =>
        ghost var found := FirstDoomed(TitlesOf(SlotsOf(indexes)), title);
        if found.Some? {
          WiredApart(indexes, location, disk, disk.files, found.value);
        }
        PrunedNothing(indexes, disk.files);
        ok := DeleteOne(title);
        if ok {
          PrunedRemove(old(indexes), old(disk.files), old(indexes), old(disk.files), found.value);
        }
      case Many(ts) =>
        for i := 0 to |ts|
          invariant Deleting(i, ts, old(SlotsOf(indexes)), old(indexes), old(disk.files))
        {
          DeleteNext(ts, i, old(SlotsOf(indexes)), old(indexes), old(disk.files));
        }
        assert ts[..|ts|] == ts;
        ok := ts != [];
    }

    // ------------------------------------------------------------ renew

    /** The first `i` ledger names registered without error; the indexes
        grew at the end and the new ledgers were touched. */
    ghost predicate Registering(i: nat, stems: seq<string>, current: seq<string>,
                                slots: seq<Slot>, ixs: seq<Index>, files: map<string, string>)
      reads this, disk
    {
      && Valid()
      && i <= |stems|
      && RegisterAll(slots, location, current, stems[..i]) == (SlotsOf(indexes), None)
      && |indexes| >= |ixs| && indexes[..|ixs|] == ixs
      && disk.files == TouchAll(files, AddressesOf(indexes[|ixs|..]))
    }

    /** One ledger name of `renew`: skipped when its file is an index's
        ledger already, an error when it has no order or the order is not a
        number, otherwise `add_index` with its title and order. */
    method RegisterNext(stems: seq<string>, i: nat, current: seq<string>,
                        ghost slots: seq<Slot>, ghost ixs: seq<Index>, ghost files: map<string, string>)
      returns (err: Option<Error>)
      requires i < |stems| && Registering(i, stems, current, slots, ixs, files)
      modifies this, disk
      ensures err.None? ==> Registering(i + 1, stems, current, slots, ixs, files)
      ensures err.Some? ==> indexes == old(indexes) && disk.files == old(disk.files)
      ensures err.Some? ==> RegisterAll(slots, location, current, stems[..i + 1]) == (SlotsOf(indexes), err)
      ensures forall ix :: ix in indexes ==> ix in old(indexes) || fresh(ix)
    {
      ghost var before := indexes;
      RegisterAllStep(slots, location, current, stems, i, SlotsOf(indexes));
      var stem := stems[i];
      if location + stem + ".lst" in current {
        return None;
      }
      var parts := Split(stem, '_');
      if |parts| < 2 {
        return Some(MissingOrder(stem));
      }
      var order := ParseInt(parts[1]);
      if order.None? {
        return Some(BadOrder(stem));
      }
      var _ := AddOne(parts[0], order.value);
      GrowTouched(ixs, before, indexes, files, old(disk.files), disk.files);
      err := None;
    }

    /** The second loop of `renew`: the ledger names in turn, stopping at
        the first error. */
    method Register(stems: seq<string>, current: seq<string>) returns (err: Option<Error>)
      requires Valid()
      modifies this, disk
      ensures Valid()
      ensures RegisterAll(old(SlotsOf(indexes)), location, current, stems) == (SlotsOf(indexes), err)
      ensures |indexes| >= |old(indexes)| && indexes[..|old(indexes)|] == old(indexes)
      ensures forall ix :: ix in indexes ==> ix in old(indexes) || fresh(ix)
      ensures disk.files == TouchAll(old(disk.files), AddressesOf(indexes[|old(indexes)|..]))
    {
      assert AddressesOf(indexes[|indexes|..]) == [];
      err := None;
      for i := 0 to |stems|
        invariant Registering(i, stems, current, old(SlotsOf(indexes)), old(indexes), old(disk.files))
        invariant forall ix :: ix in indexes ==> ix in old(indexes) || fresh(ix)
        invariant err.None?
      {
        err := RegisterNext(stems, i, current, old(SlotsOf(indexes)), old(indexes), old(disk.files));
        if err.Some? {
          RegisterAllStops(old(SlotsOf(indexes)), location, current, stems, i + 1);
          return;
        }
      }
      assert stems[..|stems|] == stems;
    }

    /** The in-place sort of `renew`: a stable sort of the indexes by
        order, which permutes them. */
    method SortByOrder()
      requires Valid()
      modifies this
      ensures Valid()
      ensures SlotsOf(indexes) == Select(old(SlotsOf(indexes)), ByOrder(old(SlotsOf(indexes))))
      ensures multiset(indexes) == multiset(old(indexes))
      ensures forall ix :: ix in indexes <==> ix in old(indexes)
    {
      WiredSorted(indexes, location, disk, disk.files);
      indexes := Select(indexes, ByOrder(SlotsOf(indexes)));
      forall ix | ix in indexes ensures ix in old(indexes) {
        assert ix in multiset(indexes);
      }
      forall ix | ix in old(indexes) ensures ix in indexes {
        assert ix in multiset(old(indexes));
      }
    }

    /** The first `i` indexes hold what their ledgers say. */
    ghost predicate Renewing(i: nat)
      reads this, disk, set ix | ix in indexes, set ix, t | ix in indexes && t in ix.contents :: t
    {
      && Valid()
      && i <= |indexes|
      && (forall k :: 0 <= k < i ==> EntriesOf(indexes[k].contents) == Decode(disk.files[indexes[k].address]))
    }

    /** `renew_contents` on the next index. */
    method RenewStep(i: nat)
      requires i < |indexes| && Renewing(i)
      modifies indexes[i]
      ensures Renewing(i + 1)
    {
      WiredApart(indexes, location, disk, disk.files, i);
      label start:
      var _ := indexes[i].RenewContents();
      forall k | 0 <= k < i
        ensures EntriesOf(indexes[k].contents) == old@start(EntriesOf(indexes[k].contents))
      {
        EntriesStable@start(indexes[k].contents);
      }
    }

    /** The last loop of `renew`: every index reads its ledger. */
    method RenewAll()
      requires Valid()
      modifies set ix | ix in indexes
      ensures Valid()
      ensures forall k :: 0 <= k < |indexes| ==> EntriesOf(indexes[k].contents) == Decode(disk.files[indexes[k].address])
    {
      for i := 0 to |indexes|
        invariant Renewing(i)
      {
        RenewStep(i);
      }
    }

    /** `renew`: of the ledger names listed in the location, the first per
        abridged title is registered unless an index already has that
        ledger (an error stops this, see `RegisterAll`); then the indexes
        are stably sorted by order and each reads its ledger. The ledgers
        of the new indexes are touched and no other file changes; an error
        leaves the old indexes' terms as they were. */
    method Renew(ledgers: seq<string>) returns (err: Option<Error>)
      requires Valid()
      modifies this, disk, set ix | ix in indexes
      ensures Valid()
      ensures (SlotsOf(indexes), err) == Renewed(old(SlotsOf(indexes)), location, AddressesOf(old(indexes)), FirstPerTitle(ledgers))
      ensures err.None? ==> forall k :: 0 <= k < |indexes| ==>
                EntriesOf(indexes[k].contents) == Decode(disk.files[indexes[k].address])
      ensures err.Some? ==> forall ix :: ix in old(indexes) ==> ix.contents == old(ix.contents)
      ensures Touched(disk.files, old(disk.files), AddressesOf(indexes))
      ensures forall ix :: ix in indexes ==> ix in old(indexes) || fresh(ix)
      ensures forall ix :: ix in old(indexes) ==> ix in indexes
    {
      ghost var files0 := disk.files;
      assert forall k :: 0 <= k < |indexes| ==> indexes[k].address in files0;
      var stems := FirstLedgers(ledgers);
      var current := AddressesOf(indexes);
      err := Register(stems, current);
      GrownTouched(old(indexes), indexes, files0, disk.files);
      forall ix | ix in old(indexes) ensures ix in indexes {
        var k :| 0 <= k < |old(indexes)| && old(indexes)[k] == ix;
        assert indexes[..|old(indexes)|][k] == ix;
      }
      if err.Some? {
        return;
      }
      ghost var grown := indexes;
      SortByOrder();
      PermutedTouched(grown, indexes, disk.files, files0);
      RenewAll();
    }

    // ------------------------------------------------------ refresh, pull

    /** The first `i` indexes got their additions after the terms they
        had (`base`). */
    ghost predicate Adding(i: nat, base: seq<seq<Entry>>, adds: seq<seq<string>>)
      reads this, disk, set ix | ix in indexes, set ix, t | ix in indexes && t in ix.contents :: t
    {
      && Valid()
      && i <= |indexes| == |base| == |adds|
      && (forall k :: 0 <= k < i ==> EntriesOf(indexes[k].contents) == base[k] + CheckedEntries(adds[k]))
      && (forall k :: i <= k < |indexes| ==> EntriesOf(indexes[k].contents) == base[k])
    }

    /** The additions to index `i`. */
    method AddStep(i: nat, ws: seq<string>, ghost base: seq<seq<Entry>>, ghost adds: seq<seq<string>>)
      requires i < |indexes| && Adding(i, base, adds) && ws == adds[i]
      modifies indexes[i]
      ensures Adding(i + 1, base, adds)
    {
      WiredApart(indexes, location, disk, disk.files, i);
      label start:
      indexes[i].AddChecked(ws);
      forall k | 0 <= k < |indexes| && k != i
        ensures EntriesOf(indexes[k].contents) == old@start(EntriesOf(indexes[k].contents))
      {
        EntriesStable@start(indexes[k].contents);
      }
    }

    /** The additions done, and the first `i` indexes sorted. */
    ghost predicate Sorting(i: nat, base: seq<seq<Entry>>, adds: seq<seq<string>>)
      reads this, disk, set ix | ix in indexes, set ix, t | ix in indexes && t in ix.contents :: t
    {
      && Valid()
      && i <= |indexes| == |base| == |adds|
      && (forall k :: 0 <= k < i ==> EntriesOf(indexes[k].contents) == Reconciled(base[k], adds[k]))
      && (forall k :: i <= k < |indexes| ==> EntriesOf(indexes[k].contents) == base[k] + CheckedEntries(adds[k]))
    }

    /** `sort_contents` on the next index. */
    method SortStep(i: nat, ghost base: seq<seq<Entry>>, ghost adds: seq<seq<string>>)
      requires i < |indexes| && Sorting(i, base, adds)
      modifies indexes[i]
      ensures Sorting(i + 1, base, adds)
    {
      WiredApart(indexes, location, disk, disk.files, i);
      label start:
      EntriesCanonical(indexes[i].contents);
      indexes[i].SortContents();
      forall k | 0 <= k < |indexes| && k != i
        ensures EntriesOf(indexes[k].contents) == old@start(EntriesOf(indexes[k].contents))
      {
        EntriesStable@start(indexes[k].contents);
      }
    }

    /** `refresh_indexes_list` after its `renew`: the tokens of the stored
        files are gathered by position, each index receives `Additions` as
        checked terms after the terms it had (the dict is keyed by the
        orders in list order and its lists are handed out by position),
        then every index runs `sort_contents`. Ledgers are not written. */
    method Reconcile(files: seq<StoredFile>)
      requires Valid()
      requires forall k :: 0 <= k < |indexes| ==> EntriesOf(indexes[k].contents) == Decode(disk.files[indexes[k].address])
      modifies set ix | ix in indexes
      ensures Valid()
      ensures forall k :: 0 <= k < |indexes| ==>
                EntriesOf(indexes[k].contents)
                  == Reconciled(Decode(disk.files[indexes[k].address]), Additions(files, OrdersOf(SlotsOf(indexes)))[k])
    {
      ReconcileFrom(files, DecodeAll(disk.files, AddressesOf(indexes)));
    }

    /** `Reconcile`, with `base` the terms the indexes hold. */
    method ReconcileFrom(files: seq<StoredFile>, ghost base: seq<seq<Entry>>)
      requires Valid()
      requires |base| == |indexes|
      requires forall k :: 0 <= k < |indexes| ==> EntriesOf(indexes[k].contents) == base[k]
      modifies set ix | ix in indexes
      ensures Valid()
      ensures forall k :: 0 <= k < |indexes| ==>
                EntriesOf(indexes[k].contents) == Reconciled(base[k], Additions(files, OrdersOf(SlotsOf(indexes)))[k])
    {
      ghost var adds := Additions(files, OrdersOf(SlotsOf(indexes)));
      var keys := Dedup(OrdersOf(SlotsOf(indexes)));
      var found := Gather(files, keys);
      for i := 0 to |keys|
        invariant Adding(i, base, adds)
      {
        assert keys[i] in keys;
        AddStep(i, Dedup(found[keys[i]]), base, adds);
      }
      forall k | |keys| <= k < |indexes| ensures CheckedEntries(adds[k]) == [] {
      }
      for i := 0 to |indexes|
        invariant Sorting(i, base, adds)
      {
        SortStep(i, base, adds);
      }
    }

    /** `refresh_indexes_list`: `renew`, then, unless it failed, the
        additions from storage and `sort_contents` on every index. */
    method RefreshIndexesList(ledgers: seq<string>, files: seq<StoredFile>) returns (err: Option<Error>)
      requires Valid()
      modifies this, disk, set ix | ix in indexes
      ensures Valid()
      ensures (SlotsOf(indexes), err) == Renewed(old(SlotsOf(indexes)), location, AddressesOf(old(indexes)), FirstPerTitle(ledgers))
      ensures err.None? ==> forall k :: 0 <= k < |indexes| ==>
                EntriesOf(indexes[k].contents)
                  == Reconciled(Decode(disk.files[indexes[k].address]), Additions(files, OrdersOf(SlotsOf(indexes)))[k])
      ensures err.Some? ==> forall ix :: ix in old(indexes) ==> ix.contents == old(ix.contents)
      ensures Touched(disk.files, old(disk.files), AddressesOf(indexes))
      ensures forall ix :: ix in indexes ==> ix in old(indexes) || fresh(ix)
      ensures forall ix :: ix in old(indexes) ==> ix in indexes
    {
      err := Renew(ledgers);
      if err.None? {
        Reconcile(files);
      }
    }

    /** The first loop of `pull`: a list per order, and the word of every
        term whose flag is clear appended to the list of its index's
        order. */
    method GatherPending() returns (wanted: map<int, seq<string>>)
      ensures Gathered(wanted, TargetsOf(indexes))
    {
      ghost var targets := TargetsOf(indexes);
      var orders := OrdersOf(SlotsOf(indexes));
      wanted := map o | o in orders :: [];
      for x := 0 to |indexes|
        invariant targets == TargetsOf(indexes)
        invariant forall o :: o in wanted <==> o in orders
        invariant forall o :: o in wanted ==> wanted[o] == PendingOf(targets[..x], o)
      {
        assert indexes[x].order == orders[x];
        wanted := AppendPending(wanted, indexes[x].order, indexes[x].contents);
        forall o | o in wanted ensures wanted[o] == PendingOf(targets[..x + 1], o) {
          PendingOfStep(targets, x, o);
        }
      }
      assert targets[..|indexes|] == targets;
      GatheredKeys(wanted, targets, orders);
    }

    /** `pull`: for each stored file in listing order, its path once for
        every position `i` of its stem whose token is an unchecked word of
        an index of order `i + 1`; see `Storage.Pull`. Nothing changes. */
    method Pull(files: seq<StoredFile>) returns (found: seq<string>)
      ensures found == Storage.Pull(TargetsOf(indexes), files)
    {
      var wanted := GatherPending();
      ghost var targets := TargetsOf(indexes);
      found := [];
      for f := 0 to |files|
        invariant found == Storage.Pull(targets, files[..f])
      {
        var hits := PullFile(wanted, targets, files[f]);
        PullStep(targets, files, f);
        found := found + hits;
      }
      assert files[..|files|] == files;
    }

    // ------------------------------------------------------------ start

    /** The `reset` branch of `__init__`: `refresh_indexes_list`, then,
        unless it failed, `settle`. Without an error every index holds the
        reconciliation of what its ledger read as (its text, or nothing for
        a ledger just touched) with the additions from storage, in
        `sort_contents` form, and its ledger holds exactly that; with an
        error the old indexes keep their terms and only touching happened.
        Either way only the indexes' ledgers may be new or rewritten. */
    method RefreshAndSettle(ledgers: seq<string>, files: seq<StoredFile>) returns (err: Option<Error>)
      requires Valid()
      modifies this, disk, set ix | ix in indexes
      ensures Valid()
      ensures (SlotsOf(indexes), err) == Renewed(old(SlotsOf(indexes)), location, AddressesOf(old(indexes)), FirstPerTitle(ledgers))
      ensures err.None? ==> Settled()
      ensures err.None? ==> forall k :: 0 <= k < |indexes| ==>
                EntriesOf(indexes[k].contents)
                  == Reconciled(Decode(Prior(old(disk.files), indexes[k].address)), Additions(files, OrdersOf(SlotsOf(indexes)))[k])
      ensures err.Some? ==> forall ix :: ix in old(indexes) ==> ix.contents == old(ix.contents)
      ensures err.Some? ==> Touched(disk.files, old(disk.files), AddressesOf(indexes))
      ensures Kept(disk.files, old(disk.files), AddressesOf(indexes))
      ensures forall ix :: ix in old(indexes) ==> ix in indexes
    {
      err := RefreshIndexesList(ledgers, files);
      if err.None? {
        SettleReconciled(old(disk.files), Additions(files, OrdersOf(SlotsOf(indexes))));
      } else {
        TouchedKept(disk.files, old(disk.files), AddressesOf(indexes));
      }
    }

    /** `settle` right after reconciliation: the terms are already in
        `sort_contents` form, so they stay as they are and the ledgers are
        rewritten to hold them. */
    method SettleReconciled(ghost files0: map<string, string>, ghost adds: seq<seq<string>>)
      requires Valid() && |adds| == |indexes|
      requires Touched(disk.files, files0, AddressesOf(indexes))
      requires forall k :: 0 <= k < |indexes| ==>
                 EntriesOf(indexes[k].contents) == Reconciled(Decode(disk.files[indexes[k].address]), adds[k])
      modifies disk, set ix | ix in indexes
      ensures Valid() && Settled()
      ensures forall k :: 0 <= k < |indexes| ==>
                EntriesOf(indexes[k].contents) == Reconciled(Decode(Prior(files0, indexes[k].address)), adds[k])
      ensures Kept(disk.files, files0, AddressesOf(indexes))
    {
      ReconciledIndexes(indexes, disk.files, files0, adds);
      Settle();
      RewrittenKept(files0, old(disk.files), disk.files, AddressesOf(indexes));
    }

    /** `__init__` after the directories: `add_index` with the initial
        titles when they are given (order -1), then `refresh_indexes_list`
        and `settle` when `reset` holds, `renew` otherwise. The slots are
        those `renew` makes of the slots after the additions. Without an
        error, a reset catalog has every index holding the reconciliation
        of what its ledger read as with the additions from storage, in
        `sort_contents` form, with its ledger holding exactly its terms;
        otherwise every index holds what its ledger reads as. Only the
        indexes' ledgers may be new or rewritten, and without a reset (or
        after an error) they are only touched. */
    method Initialise(initial: Titles, reset: bool, ledgers: seq<string>, files: seq<StoredFile>) returns (err: Option<Error>)
      requires Valid()
      modifies this, disk, set ix | ix in indexes
      ensures Valid()
      ensures var added := if Given(initial) then AddTitles(old(SlotsOf(indexes)), initial, -1) else old(SlotsOf(indexes));
              (SlotsOf(indexes), err) == Renewed(added, location, Addresses(location, added), FirstPerTitle(ledgers))
      ensures err.None? && reset ==> Settled()
      ensures err.None? && reset ==> forall k :: 0 <= k < |indexes| ==>
                EntriesOf(indexes[k].contents)
                  == Reconciled(Decode(Prior(old(disk.files), indexes[k].address)), Additions(files, OrdersOf(SlotsOf(indexes)))[k])
      ensures err.None? && !reset ==> forall k :: 0 <= k < |indexes| ==>
                EntriesOf(indexes[k].contents) == Decode(Prior(old(disk.files), indexes[k].address))
      ensures Kept(disk.files, old(disk.files), AddressesOf(indexes))
      ensures err.Some? || !reset ==> Touched(disk.files, old(disk.files), AddressesOf(indexes))
    {
      if Given(initial) {
        var _ := AddIndex(initial, -1);
      } else {
        assert AddressesOf(indexes[|indexes|..]) == [];
      }
      WiredAddresses(old(indexes), location, disk, old(disk.files));
      GrownTouched(old(indexes), indexes, old(disk.files), disk.files);
      TouchedPrior(disk.files, old(disk.files), AddressesOf(indexes));
      ghost var mid := indexes;
      ghost var files1 := disk.files;
      WiredAddresses(indexes, location, disk, disk.files);
      if reset {
        err := RefreshAndSettle(ledgers, files);
      } else {
        err := Renew(ledgers);
        TouchedKept(disk.files, files1, AddressesOf(indexes));
      }
      TouchedTwice(old(disk.files), files1, disk.files, mid, indexes);
    }
  }
}
