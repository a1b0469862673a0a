/** The catalog's list of indexes seen as values. Each index is a `Slot`: a
    title and an order, its rank (a stored file's token at 0-based position
    `i` belongs to the index of order `i + 1`). This module holds what
    `Scoro` computes on that list: the open order for a new index, the
    case-insensitive title lookup, adding and deleting by title, the ledger
    address and the reading of an address back into a title and an order. */
module Registry {
  import opened Text
  import opened Selection

  datatype Slot = Slot(title: string, order: int)

  function TitlesOf(slots: seq<Slot>): (ts: seq<string>)
    ensures |ts| == |slots|
    ensures forall k :: 0 <= k < |slots| ==> ts[k] == slots[k].title
  {
    seq(|slots|, k requires 0 <= k < |slots| => slots[k].title)
  }

  function OrdersOf(slots: seq<Slot>): (os: seq<int>)
    ensures |os| == |slots|
    ensures forall k :: 0 <= k < |slots| ==> os[k] == slots[k].order
  {
    seq(|slots|, k requires 0 <= k < |slots| => slots[k].order)
  }

  // ---------------------------------------------------------------- open order

  /** The scan of `range(i, len(taken))` for an order nobody holds; when
      there is none, `len(taken) + 1`. */
  function OpenFrom(taken: seq<int>, i: nat): (o: int)
    requires 1 <= i
    ensures o == |taken| + 1 || (i <= o < |taken| && o !in taken)
    ensures forall j :: i <= j < o && j < |taken| ==> j in taken
    decreases |taken| - i
  {
    if i >= |taken| then |taken| + 1
    else if i !in taken then i
    else OpenFrom(taken, i + 1)
  }

  /** `get_open_order`: the smallest order in 1 .. len(taken)-1 that is not
      taken, and otherwise len(taken) + 1. */
  function OpenOrder(taken: seq<int>): (o: int)
    ensures o == |taken| + 1 || (1 <= o < |taken| && o !in taken)
    ensures forall j :: 1 <= j < o && j < |taken| ==> j in taken
  {
    OpenFrom(taken, 1)
  }

  /** With no index yet the first order is 1. */
  lemma OpenOrderEmpty()
    ensures OpenOrder([]) == 1
  {
  }

  /** The result depends only on which orders are taken and how many, so the
      sort of the taken orders in the source does not change it. */
  lemma OpenOrderPermutation(a: seq<int>, b: seq<int>)
    requires multiset(a) == multiset(b)
    ensures OpenOrder(a) == OpenOrder(b)
  {
    assert |a| == |multiset(a)| == |multiset(b)| == |b|;
    forall j ensures j in a <==> j in b {
      assert j in a <==> j in multiset(a);
      assert j in b <==> j in multiset(b);
    }
  }

  /** When the taken orders are exactly 1..n, the result is n + 1, which is
      free. */
  lemma OpenOrderContiguous(taken: seq<int>)
    requires forall j :: j in taken <==> 1 <= j <= |taken|
    ensures OpenOrder(taken) == |taken| + 1
    ensures OpenOrder(taken) !in taken
  {
  }

  /** A result below len(taken) is always free; the only order that can
      clash with a taken one is len(taken) + 1, the fallback. */
  lemma OpenOrderClash(taken: seq<int>)
    ensures OpenOrder(taken) in taken ==> OpenOrder(taken) == |taken| + 1
    ensures (forall j :: j in taken ==> j <= |taken|) ==> OpenOrder(taken) !in taken
  {
  }

  /** Because the scan stops before len(taken), it can hand out a taken
      order: with order 2 taken it gives 2, with 1 and 3 taken it gives 3. */
  lemma OpenOrderGap()
    ensures OpenOrder([2]) == 2
    ensures OpenOrder([1, 3]) == 3
  {
    assert 1 in [1, 3];
  }

  // ---------------------------------------------------------------- titles

  /** `is_index`: some title equals `title` once both are lowercased. */
  function HasTitle(titles: seq<string>, title: string): (found: bool)
    ensures found <==> exists k :: 0 <= k < |titles| && Lower(titles[k]) == Lower(title)
  {
    if titles == [] then false
    else if Lower(titles[0]) == Lower(title) then true
    else
      var found := HasTitle(titles[1..], title);
      assert found ==> exists k :: 0 <= k < |titles| && Lower(titles[k]) == Lower(title) by {
        if found {
          var k :| 0 <= k < |titles[1..]| && Lower(titles[1..][k]) == Lower(title);
          assert Lower(titles[k + 1]) == Lower(title);
        }
      }
      found
  }

  /** What the catalog keeps true of its list: titles are non-empty and no
      two are equal ignoring case. */
  ghost predicate Registered(slots: seq<Slot>)
  {
    && (forall k :: 0 <= k < |slots| ==> slots[k].title != [])
    && (forall j, k {:trigger Lower(slots[j].title), Lower(slots[k].title)} :: 0 <= j < k < |slots| ==>
          Lower(slots[j].title) != Lower(slots[k].title))
  }
  /** Two different slots of a registered list differ in title, ignoring
      case. */
  lemma RegisteredApart(slots: seq<Slot>, j: nat, k: nat)
    requires Registered(slots) && j < |slots| && k < |slots| && j != k
    ensures Lower(slots[j].title) != Lower(slots[k].title)
  {
    if k < j {
      assert Lower(slots[k].title) != Lower(slots[j].title);
    }
  }

  /** Removing one slot keeps the list registered. */
  lemma RegisteredRemove(slots: seq<Slot>, i: nat)
    requires Registered(slots) && i < |slots|
    ensures Registered(slots[..i] + slots[i + 1..])
  {
    var r := slots[..i] + slots[i + 1..];
    forall j, k | 0 <= j < k < |r| ensures Lower(r[j].title) != Lower(r[k].title) {
      var j', k' := if j < i then j else j + 1, if k < i then k else k + 1;
      assert r[j] == slots[j'] && r[k] == slots[k'];
    }
  }


  /** The titles handed to `add_index` or `delete_index`: one string or a
      list of strings. */
  datatype Titles = One(title: string) | Many(titles: seq<string>)

  /** Python truthiness of the argument: an empty string or list is refused. */
  predicate Given(t: Titles)
  {
    match t
    case One(s) => s != []
    case Many(ts) => ts != []
  }

  /** `add_index` with one title: nothing for an empty or known title,
      otherwise one new slot at the end, with the given order, or the open
      order when the order is -1. */
  function AddTitle(slots: seq<Slot>, title: string, order: int): seq<Slot>
  {
    if title == [] || HasTitle(TitlesOf(slots), title) then slots
    else slots + [Slot(title, if order == -1 then OpenOrder(OrdersOf(slots)) else order)]
  }

  /** `add_index` with a list: each title in turn, each with order -1. */
  function AddEach(slots: seq<Slot>, titles: seq<string>): seq<Slot>
  {
    if titles == [] then slots
    else AddTitle(AddEach(slots, titles[..|titles| - 1]), titles[|titles| - 1], -1)
  }

  function AddTitles(slots: seq<Slot>, titles: Titles, order: int): seq<Slot>
  {
    match titles
    case One(t) => AddTitle(slots, t, order)
    case Many(ts) => AddEach(slots, ts)
  }

  /** Adding one title only appends, at most one slot, and appends exactly
      when the title is non-empty and unknown; the new slot carries the
      title, and the given order unless it is -1. */
  lemma AddTitleShape(slots: seq<Slot>, title: string, order: int)
    ensures var r := AddTitle(slots, title, order);
            && |slots| <= |r| <= |slots| + 1 && r[..|slots|] == slots
            && (|r| == |slots| + 1 <==> title != [] && !HasTitle(TitlesOf(slots), title))
            && (|r| == |slots| + 1 ==> r[|slots|].title == title)
            && (|r| == |slots| + 1 && order != -1 ==> r[|slots|].order == order)
  {
  }

  /** Adding a list only appends, at most one slot per title, and each new
      slot's title comes from the list. */
  lemma {:induction false} AddEachShape(slots: seq<Slot>, titles: seq<string>)
    ensures var r := AddEach(slots, titles);
            && |slots| <= |r| <= |slots| + |titles| && r[..|slots|] == slots
            && forall k :: |slots| <= k < |r| ==> r[k].title in titles
  {
    if titles != [] {
      var init := titles[..|titles| - 1];
      var mid := AddEach(slots, init);
      AddEachShape(slots, init);
      AddTitleShape(mid, titles[|titles| - 1], -1);
      var r := AddEach(slots, titles);
      assert r[..|slots|] == r[..|mid|][..|slots|];
      forall k | |slots| <= k < |r| ensures r[k].title in titles {
        if k < |mid| {
          assert r[k] == mid[k] && mid[k].title in init;
        }
      }
    }
  }

  /** `add_index` only appends: at most one slot for a string, at most one
      per title for a list. */
  lemma AddTitlesShape(slots: seq<Slot>, titles: Titles, order: int)
    ensures var r := AddTitles(slots, titles, order);
            && |slots| <= |r| && r[..|slots|] == slots
            && (titles.One? ==> |r| <= |slots| + 1)
            && (titles.Many? ==> |r| <= |slots| + |titles.titles|)
  {
    match titles
    case One(t) => AddTitleShape(slots, t, order);
    case Many(ts) => AddEachShape(slots, ts);
  }

  /** Adding keeps the titles unique, only appends, and afterwards every
      non-empty title asked for is known. */
  lemma AddTitleSpec(slots: seq<Slot>, title: string, order: int)
    requires Registered(slots)
    ensures var r := AddTitle(slots, title, order);
            && Registered(r)
            && r[..|slots|] == slots
            && |r| <= |slots| + 1
            && (title != [] ==> HasTitle(TitlesOf(r), title))
            && (HasTitle(TitlesOf(slots), title) ==> r == slots)
  {
    var r := AddTitle(slots, title, order);
    if title != [] && !HasTitle(TitlesOf(slots), title) {
      assert TitlesOf(r)[|slots|] == title;
      forall j | 0 <= j < |slots| ensures Lower(r[j].title) != Lower(r[|slots|].title) {
        assert TitlesOf(slots)[j] == slots[j].title;
      }
    }
  }

  lemma {:induction false} AddEachSpec(slots: seq<Slot>, titles: seq<string>)
    requires Registered(slots)
    ensures var r := AddEach(slots, titles);
            && Registered(r)
            && |slots| <= |r| <= |slots| + |titles|
            && r[..|slots|] == slots
            && (forall t :: t in titles && t != [] ==> HasTitle(TitlesOf(r), t))
  {
    if titles != [] {
      var init := titles[..|titles| - 1];
      var last := titles[|titles| - 1];
      AddEachSpec(slots, init);
      var mid := AddEach(slots, init);
      AddTitleSpec(mid, last, -1);
      var r := AddTitle(mid, last, -1);
      forall t | t in titles && t != [] ensures HasTitle(TitlesOf(r), t) {
        if t != last {
          assert t in init;
          var k :| 0 <= k < |mid| && Lower(TitlesOf(mid)[k]) == Lower(t);
          assert TitlesOf(r)[k] == TitlesOf(mid)[k];
        }
      }
      assert r[..|slots|] == mid[..|slots|];
    }
  }

  /** A list of titles that are all known already changes nothing. */
  lemma {:induction false} AddEachKnown(slots: seq<Slot>, titles: seq<string>)
    requires forall t :: t in titles ==> HasTitle(TitlesOf(slots), t)
    ensures AddEach(slots, titles) == slots
  {
    if titles != [] {
      AddEachKnown(slots, titles[..|titles| - 1]);
    }
  }

  // ---------------------------------------------------------------- delete

  /** `title.split("_")[0]`: the part of a title before its first '_'. */
  function Abridged(s: string): (r: string)
    ensures '_' !in r
    ensures |r| <= |s| && r == s[..|r|]
    ensures r == s <==> '_' !in s
  {
    SplitHead(s, '_');
    Split(s, '_')[0]
  }

  /** `delete_index` picks an index when the part of its lowercased title
      before '_' equals the lowercased part of the argument before '_'. */
  predicate Doomed(title: string, arg: string)
  {
    Abridged(Lower(title)) == Lower(Abridged(arg))
  }

  /** The first title `delete_index` would pick, if any. */
  function FirstDoomed(titles: seq<string>, arg: string): (r: Option<nat>)
    ensures r.Some? ==> r.value < |titles| && Doomed(titles[r.value], arg)
    ensures r.Some? ==> forall j :: 0 <= j < r.value ==> !Doomed(titles[j], arg)
    ensures r.None? ==> forall k :: 0 <= k < |titles| ==> !Doomed(titles[k], arg)
  {
    if titles == [] then None
    else if Doomed(titles[0], arg) then Some(0)
    else
      match FirstDoomed(titles[1..], arg)
      case None => None
      case Some(i) => Some(i + 1)
  }

  /** `delete_index` with one title: an empty title or no match leaves the
      list alone, otherwise the first match goes and the rest keep their
      order. */
  function DeleteTitle(slots: seq<Slot>, arg: string): seq<Slot>
  {
    if arg == [] then slots
    else
      match FirstDoomed(TitlesOf(slots), arg)
      case None => slots
      case Some(i) => slots[..i] + slots[i + 1..]
  }

  function DeleteEach(slots: seq<Slot>, args: seq<string>): seq<Slot>
  {
    if args == [] then slots
    else DeleteTitle(DeleteEach(slots, args[..|args| - 1]), args[|args| - 1])
  }

  function DeleteTitles(slots: seq<Slot>, titles: Titles): seq<Slot>
  {
    match titles
    case One(t) => DeleteTitle(slots, t)
    case Many(ts) => DeleteEach(slots, ts)
  }

  /** Deleting one title leaves the list as it is or removes exactly one
      matching slot, the others keeping their order; it never adds one. */
  lemma DeleteTitleShape(slots: seq<Slot>, arg: string)
    ensures var r := DeleteTitle(slots, arg);
            && (|r| == |slots| || |r| == |slots| - 1)
            && (|r| == |slots| ==> r == slots)
            && (|r| < |slots| ==> exists i :: 0 <= i < |slots| && Doomed(slots[i].title, arg) && r == slots[..i] + slots[i + 1..])
            && multiset(r) <= multiset(slots)
  {
    if arg != [] {
      match FirstDoomed(TitlesOf(slots), arg)
      case None =>
      case Some(i) =>
        assert slots == slots[..i] + [slots[i]] + slots[i + 1..];
        assert TitlesOf(slots)[i] == slots[i].title;
    }
  }

  /** Deleting a list removes at most one slot per title and adds none. */
  lemma {:induction false} DeleteEachShape(slots: seq<Slot>, args: seq<string>)
    ensures var r := DeleteEach(slots, args);
            && |slots| - |args| <= |r| <= |slots|
            && multiset(r) <= multiset(slots)
  {
    if args != [] {
      var mid := DeleteEach(slots, args[..|args| - 1]);
      DeleteEachShape(slots, args[..|args| - 1]);
      DeleteTitleShape(mid, args[|args| - 1]);
    }
  }

  /** `delete_index` only removes slots. */
  lemma DeleteTitlesShape(slots: seq<Slot>, titles: Titles)
    ensures var r := DeleteTitles(slots, titles);
            |r| <= |slots| && multiset(r) <= multiset(slots)
  {
    match titles
    case One(t) => DeleteTitleShape(slots, t);
    case Many(ts) => DeleteEachShape(slots, ts);
  }

  /** Deleting keeps the titles unique and removes at most one slot. */
  lemma DeleteTitleSpec(slots: seq<Slot>, arg: string)
    requires Registered(slots)
    ensures var r := DeleteTitle(slots, arg);
            && Registered(r)
            && (|r| == |slots| ==> r == slots)
            && (|r| == |slots| - 1 <==> arg != [] && exists k :: 0 <= k < |slots| && Doomed(slots[k].title, arg))
            && |slots| - 1 <= |r| <= |slots|
  {
    if arg != [] {
      match FirstDoomed(TitlesOf(slots), arg)
      case None =>
      case Some(i) =>
        RegisteredRemove(slots, i);
        assert TitlesOf(slots)[i] == slots[i].title;
    }
  }

  lemma {:induction false} DeleteEachSpec(slots: seq<Slot>, args: seq<string>)
    requires Registered(slots)
    ensures Registered(DeleteEach(slots, args))
    ensures |slots| - |args| <= |DeleteEach(slots, args)| <= |slots|
  {
    if args != [] {
      DeleteEachSpec(slots, args[..|args| - 1]);
      DeleteTitleSpec(DeleteEach(slots, args[..|args| - 1]), args[|args| - 1]);
    }
  }

  /** `'_'` survives lowercasing unchanged, and nothing else becomes one. */
  lemma LowerUnderscore(s: string)
    ensures '_' in Lower(s) <==> '_' in s
  {
    if '_' in Lower(s) {
      var k :| 0 <= k < |s| && Lower(s)[k] == '_';
      assert s[k] == '_';
    }
    if '_' in s {
      var k :| 0 <= k < |s| && s[k] == '_';
      assert Lower(s)[k] == '_';
    }
  }
  /** For a title and an argument without '_', a match is equality
      ignoring case. */
  lemma DoomedPlain(title: string, arg: string)
    requires '_' !in title && '_' !in arg
    ensures Doomed(title, arg) <==> Lower(title) == Lower(arg)
  {
    LowerUnderscore(title);
  }


  /** Adding a title without '_' that no index's abridged title matches, and
      then deleting it, gives back the list. */
  lemma AddThenDelete(slots: seq<Slot>, title: string, order: int)
    requires title != [] && '_' !in title
    requires forall k :: 0 <= k < |slots| ==> !Doomed(slots[k].title, title)
    ensures DeleteTitle(AddTitle(slots, title, order), title) == slots
  {
    LowerUnderscore(title);
    var r := AddTitle(slots, title, order);
    assert r == slots + [r[|slots|]] && r[|slots|].title == title;
    assert Doomed(title, title);
    var ts := TitlesOf(r);
    assert forall k :: 0 <= k < |slots| ==> ts[k] == slots[k].title;
    assert FirstDoomed(ts, title) == Some(|slots|);
    assert r[..|slots|] + r[|slots| + 1..] == slots;
  }

  // ---------------------------------------------------------------- addresses

  /** `path.rstrip("/") + "/"`, or the default for an empty path. */
  function Normalise(path: string, default: string): (r: string)
    ensures path != [] ==> r != [] && r[|r| - 1] == '/' && (|r| == 1 || r[|r| - 2] != '/')
    ensures path != [] ==> |r| <= |path| + 1 && r[..|r| - 1] == path[..|r| - 1]
    ensures path != [] ==> forall k :: |r| - 1 <= k < |path| ==> path[k] == '/'
    ensures path == [] ==> r == default
  {
    if path != [] then RStrip(path, {'/'}) + "/" else default
  }

  /** A directory ending in exactly one '/' is its own normal form. */
  lemma NormaliseIdempotent(path: string, default: string)
    requires default != [] && Normalise(default, default) == default
    ensures Normalise(Normalise(path, default), default) == Normalise(path, default)
  {
    var r := Normalise(path, default);
    var root := RStrip(r, {'/'});
    assert RStrip(r[..|r| - 1], {'/'}) == r[..|r| - 1];
    assert root == r[..|r| - 1];
    assert root + "/" == r;
  }

  /** `Index.__init__`'s ledger file: `<root>/<title>_<order>.lst`. */
  function LedgerAddress(root: string, title: string, order: int): string
  {
    RStrip(root, {'/'}) + "/" + (title + "_" + IntToString(order)) + ".lst"
  }

  /** The ledger file's name is `<title>_<order>.lst`, right after a '/'. */
  lemma LedgerName(root: string, title: string, order: int)
    ensures var r := LedgerAddress(root, title, order);
            var name := "/" + title + "_" + IntToString(order) + ".lst";
            |name| <= |r| && r[|r| - |name|..] == name
  {
    var dir := RStrip(root, {'/'});
    var name := "/" + title + "_" + IntToString(order) + ".lst";
    var r := LedgerAddress(root, title, order);
    assert r == dir + name;
    assert r[|r| - |name|..] == name;
  }

  /** The ledger addresses of the slots, in order: the `address` of each
      index `renew` compares the listing against. */
  function Addresses(location: string, slots: seq<Slot>): (r: seq<string>)
    ensures |r| == |slots|
    ensures forall k :: 0 <= k < |slots| ==> r[k] == LedgerAddress(location, slots[k].title, slots[k].order)
  {
    seq(|slots|, k requires 0 <= k < |slots| => LedgerAddress(location, slots[k].title, slots[k].order))
  }

  /** The part after the last separator is determined. */
  lemma LastSeparator(a: string, b: string, a': string, b': string, c: char)
    requires c !in b && c !in b'
    requires a + [c] + b == a' + [c] + b'
    ensures a == a' && b == b'
  {
    var s := a + [c] + b;
    SuffixNoLonger(a, b, a', b', c);
    SuffixNoLonger(a', b', a, b, c);
    assert b == s[|s| - |b|..] == b';
    assert a == s[..|a|] == a';
  }

  lemma SuffixNoLonger(a: string, b: string, a': string, b': string, c: char)
    requires c !in b'
    requires a + [c] + b == a' + [c] + b'
    ensures |b'| <= |b|
  {
    var s := a + [c] + b;
    assert s[|a|] == c;
    assert forall j :: |a'| < j < |s| ==> s[j] == b'[j - |a'| - 1];
  }

  /** Different (title, order) pairs under one root get different ledger
      files. */
  lemma AddressInjective(root: string, t1: string, o1: int, t2: string, o2: int)
    requires LedgerAddress(root, t1, o1) == LedgerAddress(root, t2, o2)
    ensures t1 == t2 && o1 == o2
  {
    var p := RStrip(root, {'/'}) + "/";
    var s1, s2 := IntToString(o1), IntToString(o2);
    var m1, m2 := t1 + "_" + s1, t2 + "_" + s2;
    assert LedgerAddress(root, t1, o1) == p + m1 + ".lst";
    assert LedgerAddress(root, t2, o2) == p + m2 + ".lst";
    SameInfix(p, m1, m2, ".lst");
    assert '_' !in s1 && '_' !in s2;
    LastSeparator(t1, s1, t2, s2, '_');
    IntRoundTrip(o1);
    IntRoundTrip(o2);
  }

  lemma SameInfix(a: string, m1: string, m2: string, b: string)
    requires a + m1 + b == a + m2 + b
    ensures m1 == m2
  {
    var s := a + m1 + b;
    assert |m1| == |m2|;
    assert m1 == s[|a|..|a| + |m1|];
    assert m2 == (a + m2 + b)[|a|..|a| + |m2|];
  }

  /** Under a normalised directory the ledger address is the directory, the
      stem and ".lst". */
  lemma AddressUnderDirectory(location: string, title: string, order: int)
    requires location != [] && location[|location| - 1] == '/'
    requires |location| == 1 || location[|location| - 2] != '/'
    ensures LedgerAddress(location, title, order) == location + (title + "_" + IntToString(order)) + ".lst"
  {
    assert RStrip(location[..|location| - 1], {'/'}) == location[..|location| - 1];
  }

  // ---------------------------------------------------------------- renew

  /** Why `renew` stops: a ledger name without '_' (IndexError) or one
      whose order is not an integer (ValueError). */
  datatype Error = MissingOrder(stem: string) | BadOrder(stem: string)

  function AbridgedAll(stems: seq<string>): (r: seq<string>)
    ensures |r| == |stems|
    ensures forall k :: 0 <= k < |stems| ==> r[k] == Abridged(stems[k])
  {
    seq(|stems|, k requires 0 <= k < |stems| => Abridged(stems[k]))
  }

  /** The ledger names `renew` goes on with: the first name for each
      abridged title, in listing order. */
  function FirstPerTitle(stems: seq<string>): (r: seq<string>)
    ensures forall s :: s in r ==> s in stems
    ensures forall j, k :: 0 <= j < k < |r| ==> Abridged(r[j]) != Abridged(r[k])
    ensures forall s :: s in stems ==> Abridged(s) in AbridgedAll(r)
  {
    if stems == [] then []
    else
      var init := FirstPerTitle(stems[..|stems| - 1]);
      var last := stems[|stems| - 1];
      assert forall s :: s in stems ==> s in stems[..|stems| - 1] || s == last;
      if Abridged(last) in AbridgedAll(init) then init
      else
        var r := init + [last];
        AbridgedAllSnoc(init, last);
        assert forall j :: 0 <= j < |init| ==> Abridged(r[j]) == AbridgedAll(init)[j];
        r
  }

  lemma AbridgedAllSnoc(stems: seq<string>, last: string)
    ensures AbridgedAll(stems + [last]) == AbridgedAll(stems) + [Abridged(last)]
  {
  }

  /** One more ledger name: kept when its abridged title is new. */
  lemma FirstPerTitleStep(stems: seq<string>, i: nat)
    requires i < |stems|
    ensures var init := FirstPerTitle(stems[..i]);
            FirstPerTitle(stems[..i + 1])
              == if Abridged(stems[i]) in AbridgedAll(init) then init else init + [stems[i]]
    ensures AbridgedAll(FirstPerTitle(stems[..i]) + [stems[i]]) == AbridgedAll(FirstPerTitle(stems[..i])) + [Abridged(stems[i])]
  {
    assert stems[..i + 1][..i] == stems[..i];
    AbridgedAllSnoc(FirstPerTitle(stems[..i]), stems[i]);
  }

  /** One ledger name in `renew`: a name whose file is already an index's is
      skipped; otherwise the name must split into a title and an integer
      order, and that title is added with that order. */
  function RegisterOne(slots: seq<Slot>, location: string, current: seq<string>, stem: string): (seq<Slot>, Option<Error>)
  {
    if location + stem + ".lst" in current then (slots, None)
    else
      var parts := Split(stem, '_');
      if |parts| < 2 then (slots, Some(MissingOrder(stem)))
      else
        match ParseInt(parts[1])
        case None => (slots, Some(BadOrder(stem)))
        case Some(o) => (AddTitle(slots, parts[0], o), None)
  }

  /** The ledger names in turn, stopping at the first error. */
  function RegisterAll(slots: seq<Slot>, location: string, current: seq<string>, stems: seq<string>): (seq<Slot>, Option<Error>)
  {
    if stems == [] then (slots, None)
    else
      var (mid, err) := RegisterAll(slots, location, current, stems[..|stems| - 1]);
      if err.Some? then (mid, err) else RegisterOne(mid, location, current, stems[|stems| - 1])
  }

  /** One ledger name appends at most one slot, titled with the name's part
      before '_'; an error changes nothing, names the stem, and arises only
      for a name that is not already an index's ledger. */
  lemma RegisterOneShape(slots: seq<Slot>, location: string, current: seq<string>, stem: string)
    ensures var r := RegisterOne(slots, location, current, stem);
            && |slots| <= |r.0| <= |slots| + 1 && r.0[..|slots|] == slots
            && (r.1.Some? ==> r.0 == slots)
            && (r.1.Some? ==> location + stem + ".lst" !in current && r.1.value.stem == stem)
            && (|r.0| == |slots| + 1 ==> r.0[|slots|].title == Abridged(stem))
  {
    var parts := Split(stem, '_');
    if location + stem + ".lst" !in current && |parts| >= 2 && ParseInt(parts[1]).Some? {
      AddTitleShape(slots, parts[0], ParseInt(parts[1]).value);
    }
  }

  /** The names only append slots, at most one each, and an error names
      one of them. */
  lemma {:induction false} RegisterAllShape(slots: seq<Slot>, location: string, current: seq<string>, stems: seq<string>)
    ensures var r := RegisterAll(slots, location, current, stems);
            && |slots| <= |r.0| <= |slots| + |stems| && r.0[..|slots|] == slots
            && (r.1.Some? ==> r.1.value.stem in stems)
  {
    if stems != [] {
      var init := stems[..|stems| - 1];
      RegisterAllShape(slots, location, current, init);
      var (mid, err) := RegisterAll(slots, location, current, init);
      if err.None? {
        RegisterOneShape(mid, location, current, stems[|stems| - 1]);
        var r := RegisterOne(mid, location, current, stems[|stems| - 1]);
        assert r.0[..|slots|] == r.0[..|mid|][..|slots|];
      } else {
        assert err.value.stem in init;
      }
    }
  }

  /** The slots after `renew`, and its error if any: the names registered
      in turn and then, when none failed, stably sorted by order. */
  function Renewed(slots: seq<Slot>, location: string, current: seq<string>, stems: seq<string>): (seq<Slot>, Option<Error>)
  {
    var (registered, err) := RegisterAll(slots, location, current, stems);
    (if err.None? then Select(registered, ByOrder(registered)) else registered, err)
  }

  /** `renew` never loses an index: it adds at most one per name, keeps the
      old ones in front when it fails, and otherwise only reorders what it
      registered. */
  lemma RenewedSpec(slots: seq<Slot>, location: string, current: seq<string>, stems: seq<string>)
    ensures var r := Renewed(slots, location, current, stems);
            && |slots| <= |r.0| <= |slots| + |stems|
            && (r.1.Some? ==> r.0[..|slots|] == slots && r.1.value.stem in stems)
            && (r.1.None? ==> multiset(r.0) == multiset(RegisterAll(slots, location, current, stems).0))
  {
    var registered := RegisterAll(slots, location, current, stems).0;
    RegisterAllShape(slots, location, current, stems);
    ByOrderSpec(registered);
  }

  /** The names are registered one after the other. */
  lemma RegisterAllStep(slots: seq<Slot>, location: string, current: seq<string>, stems: seq<string>, i: nat, mid: seq<Slot>)
    requires i < |stems|
    requires RegisterAll(slots, location, current, stems[..i]) == (mid, None)
    ensures RegisterAll(slots, location, current, stems[..i + 1]) == RegisterOne(mid, location, current, stems[i])
  {
    assert stems[..i + 1][..i] == stems[..i];
  }

  /** Registering stops at the first error: the names after it are not
      looked at. */
  lemma {:induction false} RegisterAllStops(slots: seq<Slot>, location: string, current: seq<string>, stems: seq<string>, n: nat)
    requires n <= |stems|
    requires RegisterAll(slots, location, current, stems[..n]).1.Some?
    ensures RegisterAll(slots, location, current, stems) == RegisterAll(slots, location, current, stems[..n])
  {
    if n < |stems| {
      assert stems[..|stems| - 1][..n] == stems[..n];
      RegisterAllStops(slots, location, current, stems[..|stems| - 1], n);
    } else {
      assert stems[..n] == stems;
    }
  }

  /** Registering keeps the titles unique. */
  lemma {:induction false} RegisterAllRegistered(slots: seq<Slot>, location: string, current: seq<string>, stems: seq<string>)
    requires Registered(slots)
    ensures Registered(RegisterAll(slots, location, current, stems).0)
    ensures |RegisterAll(slots, location, current, stems).0| >= |slots|
    ensures RegisterAll(slots, location, current, stems).0[..|slots|] == slots
  {
    if stems != [] {
      RegisterAllRegistered(slots, location, current, stems[..|stems| - 1]);
      var (mid, err) := RegisterAll(slots, location, current, stems[..|stems| - 1]);
      if err.None? {
        var stem := stems[|stems| - 1];
        var parts := Split(stem, '_');
        if location + stem + ".lst" !in current && |parts| >= 2 && ParseInt(parts[1]).Some? {
          AddTitleSpec(mid, parts[0], ParseInt(parts[1]).value);
          var r := AddTitle(mid, parts[0], ParseInt(parts[1]).value);
          assert r[..|slots|] == r[..|mid|][..|slots|];
        }
      }
    }
  }

  /** A ledger named by `Index.__init__` for a title without '_' is read
      back by `renew` as that title and that order. */
  lemma RegisterOwnLedger(slots: seq<Slot>, location: string, current: seq<string>, title: string, order: int)
    requires title != [] && '_' !in title && order != -1
    requires !HasTitle(TitlesOf(slots), title)
    requires location + (title + "_" + IntToString(order)) + ".lst" !in current
    ensures RegisterOne(slots, location, current, title + "_" + IntToString(order))
            == (slots + [Slot(title, order)], None)
  {
    var s := IntToString(order);
    assert '_' !in s;
    SplitJoin([title, s], '_');
    assert Join([title, s], '_') == title + "_" + s;
    IntRoundTrip(order);
  }

  // ---------------------------------------------------------------- sort by order

  predicate IntLess(a: int, b: int)
  {
    a < b
  }

  lemma IntLessStrictTotal()
    ensures StrictTotal(IntLess)
  {
  }

  /** `indexes.sort(key=order)`: stable, so indexes with equal orders keep
      their relative position. */
  function ByOrder(slots: seq<Slot>): (js: seq<nat>)
    ensures |js| == |slots|
    ensures forall k :: 0 <= k < |js| ==> js[k] < |slots|
  {
    StableOrder(OrdersOf(slots), IntLess)
  }

  /** After the sort the orders never go down, ties keep their relative
      position, and the same slots are all there. */
  lemma ByOrderSpec(slots: seq<Slot>)
    ensures var r := Select(slots, ByOrder(slots));
            && (forall p, q :: 0 <= p < q < |r| ==> r[p].order <= r[q].order)
            && KeepsTies(OrdersOf(slots), ByOrder(slots))
            && multiset(r) == multiset(slots)
  {
    IntLessStrictTotal();
    StableOrderCorrect(OrdersOf(slots), IntLess);
    SelectPermutation(slots, ByOrder(slots));
    var r := Select(slots, ByOrder(slots));
    forall p, q | 0 <= p < q < |r| ensures r[p].order <= r[q].order {
      assert !IntLess(OrdersOf(slots)[ByOrder(slots)[q]], OrdersOf(slots)[ByOrder(slots)[p]]);
    }
  }

  /** Sorting keeps the titles unique. */
  lemma ByOrderRegistered(slots: seq<Slot>)
    requires Registered(slots)
    ensures Registered(Select(slots, ByOrder(slots)))
  {
    IntLessStrictTotal();
    StableOrderCorrect(OrdersOf(slots), IntLess);
    var js := ByOrder(slots);
    var r := Select(slots, js);
    forall p, q | 0 <= p < q < |r| ensures Lower(r[p].title) != Lower(r[q].title) {
      assert js[p] != js[q] by {
        DistinctPositions(js, |slots|, p, q);
      }
    }
  }

  /** A permutation of 0..n-1 has no repeated position. */
  lemma DistinctPositions(js: seq<nat>, n: nat, p: nat, q: nat)
    requires multiset(js) == multiset(Range(0, n))
    requires p < q < |js|
    ensures js[p] != js[q]
  {
    if js[p] == js[q] {
      var x := js[p];
      var rest := js[..p] + js[p + 1..];
      assert js == js[..p] + [x] + js[p + 1..];
      assert x in rest by {
        assert rest[q - 1] == js[q];
      }
      assert multiset(js)[x] == multiset(rest)[x] + 1;
      assert multiset(rest)[x] >= 1;
      RangeCount(0, n, x);
    }
  }

  lemma {:induction false} RangeCount(lo: nat, hi: nat, x: nat)
    requires lo <= hi
    ensures multiset(Range(lo, hi))[x] == if lo <= x < hi then 1 else 0
    decreases hi - lo
  {
    if lo < hi {
      RangeCount(lo + 1, hi, x);
      var rest := Range(lo + 1, hi);
      assert Range(lo, hi) == [lo] + rest;
      var head: seq<nat> := [lo];
      var all: multiset<nat>, mh: multiset<nat>, mr: multiset<nat> := multiset(Range(lo, hi)), multiset(head), multiset(rest);
      assert all == mh + mr;
      assert all[x] == mh[x] + mr[x];
      assert mh[x] == if x == lo then 1 else 0;
    } else {
      assert Range(lo, hi) == [];
    }
  }
}
