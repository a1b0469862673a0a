/** Words of an index and their canonical order. `Less` is Python's `<` on
    `str`; `Quicksort` is the hand-written quicksort of `Index.sort_contents`,
    whose `<` / `>` partition keeps one copy of each word; `Canonical` is the
    join back from the sorted words to the first element carrying each word. */
module Words {
  import opened Selection

  /** Python's `a < b` on strings: code-point lexicographic order, where a
      proper prefix comes first. */
  predicate Less(a: string, b: string)
  {
    if a == [] then b != []
    else if b == [] then false
    else if a[0] != b[0] then a[0] < b[0]
    else Less(a[1..], b[1..])
  }

  /** A proper prefix comes first. */
  lemma {:induction false} LessPrefix(a: string, b: string)
    requires a < b
    ensures Less(a, b)
  {
    if a != [] {
      assert a[1..] < b[1..];
      LessPrefix(a[1..], b[1..]);
    }
  }

  lemma {:induction false} LessIrreflexive(a: string)
    ensures !Less(a, a)
  {
    if a != [] {
      LessIrreflexive(a[1..]);
    }
  }

  lemma {:induction false} LessTransitive(a: string, b: string, c: string)
    requires Less(a, b) && Less(b, c)
    ensures Less(a, c)
  {
    if a != [] && b != [] && c != [] && a[0] == b[0] == c[0] {
      LessTransitive(a[1..], b[1..], c[1..]);
    }
  }

  lemma {:induction false} LessTotal(a: string, b: string)
    requires a != b
    ensures Less(a, b) || Less(b, a)
  {
    if a != [] && b != [] && a[0] == b[0] {
      assert a == [a[0]] + a[1..] && b == [b[0]] + b[1..];
      LessTotal(a[1..], b[1..]);
    }
  }

  lemma LessAsymmetric(a: string, b: string)
    requires Less(a, b)
    ensures !Less(b, a)
  {
    if Less(b, a) {
      LessTransitive(a, b, a);
      LessIrreflexive(a);
    }
  }

  /** `Less` is a strict total order, so the stable sort may use it. */
  lemma LessStrictTotal()
    ensures StrictTotal(Less)
  {
    forall a ensures !Less(a, a) {
      LessIrreflexive(a);
    }
    forall a, b, c | Less(a, b) && Less(b, c) ensures Less(a, c) {
      LessTransitive(a, b, c);
    }
    forall a, b | a != b ensures Less(a, b) || Less(b, a) {
      LessTotal(a, b);
    }
  }

  /** Every word is smaller than every later one: sorted, without repeats. */
  ghost predicate Increasing(ws: seq<string>)
  {
    forall i, j :: 0 <= i < j < |ws| ==> Less(ws[i], ws[j])
  }

  /** `[i for i in ws if i < p]` */
  function Below(ws: seq<string>, p: string): (r: seq<string>)
    ensures |r| <= |ws|
    ensures forall w :: w in r <==> w in ws && Less(w, p)
  {
    if ws == [] then []
    else (if Less(ws[0], p) then [ws[0]] else []) + Below(ws[1..], p)
  }

  /** `[i for i in ws if i > p]` */
  function Above(ws: seq<string>, p: string): (r: seq<string>)
    ensures |r| <= |ws|
    ensures forall w :: w in r <==> w in ws && Less(p, w)
  {
    if ws == [] then []
    else (if Less(p, ws[0]) then [ws[0]] else []) + Above(ws[1..], p)
  }

  lemma IncreasingAround(lo: seq<string>, p: string, hi: seq<string>)
    requires Increasing(lo) && Increasing(hi)
    requires forall w :: w in lo ==> Less(w, p)
    requires forall w :: w in hi ==> Less(p, w)
    ensures Increasing(lo + [p] + hi)
  {
    var r := lo + [p] + hi;
    forall i, j | 0 <= i < j < |r| ensures Less(r[i], r[j]) {
      if i < |lo| && j > |lo| {
        assert r[i] in lo && r[j] in hi;
        LessTransitive(r[i], p, r[j]);
      } else if i < |lo| {
        assert r[i] in lo;
      } else if i == |lo| {
        assert r[j] in hi;
      }
    }
  }

  /** The source's `quicksort`: the pivot is the first word, and the words
      equal to it are in neither partition, so repeats vanish. */
  function Quicksort(ws: seq<string>): (r: seq<string>)
    ensures Increasing(r)
    ensures forall w :: w in r <==> w in ws
    decreases |ws|
  {
    if |ws| < 2 then
      assert |ws| == 1 ==> Increasing(ws);
      ws
    else
      var p := ws[0];
      LessIrreflexive(p);
      assert Below(ws, p) == Below(ws[1..], p) && Above(ws, p) == Above(ws[1..], p);
      var lo := Quicksort(Below(ws, p));
      var hi := Quicksort(Above(ws, p));
      IncreasingAround(lo, p, hi);
      forall w | w in ws ensures w in lo + [p] + hi {
        if w != p {
          LessTotal(w, p);
        }
      }
      lo + [p] + hi
  }

  /** Two increasing lists of the same words are the same list. */
  lemma {:induction false} IncreasingUnique(a: seq<string>, b: seq<string>)
    requires Increasing(a) && Increasing(b)
    requires forall w :: w in a <==> w in b
    ensures a == b
  {
    if a != [] {
      assert a[0] in b;
    }
    if b != [] {
      assert b[0] in a;
    }
    if a != [] && b != [] {
      var i :| 0 <= i < |a| && a[i] == b[0];
      var j :| 0 <= j < |b| && b[j] == a[0];
      if i > 0 && j > 0 {
        LessAsymmetric(a[0], a[i]);
      } else if i > 0 {
        LessIrreflexive(a[0]);
      } else if j > 0 {
        LessIrreflexive(b[0]);
      }
      assert a[0] == b[0];
      assert a == [a[0]] + a[1..] && b == [b[0]] + b[1..];
      forall w ensures w in a[1..] <==> w in b[1..] {
        if w in a[1..] {
          var k :| 1 <= k < |a| && a[k] == w;
          LessIrreflexive(a[0]);
          assert w != a[0] && w in b;
        }
        if w in b[1..] {
          var k :| 1 <= k < |b| && b[k] == w;
          LessIrreflexive(b[0]);
          assert w != b[0] && w in a;
        }
      }
      IncreasingUnique(a[1..], b[1..]);
      assert a == [a[0]] + a[1..] && b == [b[0]] + b[1..];
    }
  }

  /** Sorting words that are already increasing changes nothing. */
  lemma QuicksortOfIncreasing(ws: seq<string>)
    requires Increasing(ws)
    ensures Quicksort(ws) == ws
  {
    IncreasingUnique(Quicksort(ws), ws);
  }

  /** Position of the first occurrence of `w`. */
  function FirstIndex(ws: seq<string>, w: string): (j: nat)
    requires w in ws
    ensures j < |ws| && ws[j] == w
    ensures forall k :: 0 <= k < j ==> ws[k] != w
  {
    if ws[0] == w then 0 else 1 + FirstIndex(ws[1..], w)
  }

  /** For each word of the sorted list, the position of the first element
      that carries it. */
  function Picks(ws: seq<string>): (js: seq<nat>)
    ensures |js| == |Quicksort(ws)|
    ensures forall k :: 0 <= k < |js| ==> js[k] < |ws|
  {
    var sorted := Quicksort(ws);
    seq(|sorted|, k requires 0 <= k < |sorted| => FirstIndex(ws, sorted[k]))
  }

  /** `sort_contents`: one element per distinct word, in word order, each the
      first element of `xs` carrying that word (`ws` are the words of `xs`). */
  function Canonical<T>(xs: seq<T>, ws: seq<string>): (r: seq<T>)
    requires |xs| == |ws|
    ensures |r| == |Quicksort(ws)|
  {
    Select(xs, Picks(ws))
  }

  /** The words of the canonical form are the quicksort of the words. */
  lemma CanonicalWords(ws: seq<string>)
    ensures Canonical(ws, ws) == Quicksort(ws)
  {
  }

  /** What `sort_contents` promises: words strictly increasing, exactly the
      words of the input, and each element the first input element with its
      word. */
  lemma CanonicalSpec<T>(xs: seq<T>, ws: seq<string>)
    requires |xs| == |ws|
    ensures Increasing(Select(ws, Picks(ws)))
    ensures forall w :: w in Select(ws, Picks(ws)) <==> w in ws
    ensures forall k :: 0 <= k < |Picks(ws)| ==>
              var j := Picks(ws)[k];
              Canonical(xs, ws)[k] == xs[j] && forall i :: 0 <= i < j ==> ws[i] != ws[j]
  {
    CanonicalWords(ws);
  }

  /** A list whose words already increase is its own canonical form. */
  lemma {:induction false} CanonicalOfIncreasing<T>(xs: seq<T>, ws: seq<string>)
    requires |xs| == |ws| && Increasing(ws)
    ensures Picks(ws) == Range(0, |ws|)
    ensures Canonical(xs, ws) == xs
  {
    QuicksortOfIncreasing(ws);
    forall k | 0 <= k < |ws| ensures Picks(ws)[k] == k {
      var j := Picks(ws)[k];
      if j < k {
        LessIrreflexive(ws[j]);
      }
    }
  }

  /** `sort_contents` twice is `sort_contents` once. */
  lemma CanonicalIdempotent<T>(xs: seq<T>, ws: seq<string>)
    requires |xs| == |ws|
    ensures Canonical(Canonical(xs, ws), Canonical(ws, ws)) == Canonical(xs, ws)
  {
    CanonicalWords(ws);
    CanonicalOfIncreasing(Canonical(xs, ws), Canonical(ws, ws));
  }
}
