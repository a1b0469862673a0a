/** The few Python `str` operations the catalog relies on, written out over
    `seq<char>`: `split` on one separator, `lower`, `lstrip`/`rstrip` with a
    set of characters, `replace(c, "")`, universal-newline reading,
    `readlines`, `str(int)` and `int(str)`. */
module Text {

  datatype Option<T> = None | Some(value: T)

  // ---------------------------------------------------------------- split

  /** Inverse of `Split`: the parts glued back with the separator. */
  function Join(parts: seq<string>, sep: char): string
    requires |parts| >= 1
  {
    if |parts| == 1 then parts[0] else parts[0] + [sep] + Join(parts[1..], sep)
  }

  /** `s.split(sep)`: never empty ("".split("_") is [""]), and two adjacent
      separators give an empty part between them. */
  function Split(s: string, sep: char): (parts: seq<string>)
    ensures |parts| >= 1
    ensures forall k :: 0 <= k < |parts| ==> sep !in parts[k]
    ensures Join(parts, sep) == s
  {
    if s == [] then [""]
    else
      var rest := Split(s[1..], sep);
      if s[0] == sep then
        assert ([""] + rest)[1..] == rest;
        [""] + rest
      else
        var parts := [[s[0]] + rest[0]] + rest[1..];
        assert |rest| > 1 ==> parts[1..] == rest[1..] && Join(rest, sep) == rest[0] + [sep] + Join(rest[1..], sep);
        parts
  }

  /** Splitting what `Join` glued gives back the parts, provided no part
      holds the separator. */
  lemma {:induction false} SplitJoin(parts: seq<string>, sep: char)
    requires |parts| >= 1
    requires forall k :: 0 <= k < |parts| ==> sep !in parts[k]
    ensures Split(Join(parts, sep), sep) == parts
  {
    if |parts| > 1 {
      var tail := [sep] + Join(parts[1..], sep);
      assert Join(parts, sep) == parts[0] + tail;
      SplitPrefix(parts[0], tail, sep);
      SplitJoin(parts[1..], sep);
      SplitSepFirst(Join(parts[1..], sep), sep);
      var r := Split(Join(parts, sep), sep);
      assert r[0] == parts[0] && r[1..] == parts[1..];
      assert r == [r[0]] + r[1..];
    } else {
      assert Join(parts, sep) == parts[0] + [];
      SplitPrefix(parts[0], [], sep);
    }
  }

  /** A separator-free prefix glues onto the first part. */
  lemma {:induction false} SplitPrefix(head: string, tail: string, sep: char)
    requires sep !in head
    requires tail == [] || tail[0] == sep
    ensures Split(head + tail, sep)[0] == head + Split(tail, sep)[0]
    ensures Split(head + tail, sep)[1..] == Split(tail, sep)[1..]
  {
    if head != [] {
      assert (head + tail)[1..] == head[1..] + tail;
      SplitPrefix(head[1..], tail, sep);
    } else {
      assert head + tail == tail;
    }
  }

  lemma SplitSepFirst(s: string, sep: char)
    ensures Split([sep] + s, sep) == [""] + Split(s, sep)
  {
    assert ([sep] + s)[1..] == s;
  }

  /** The first part of `s.split(sep)` is the prefix of `s` before the first
      separator. */
  lemma {:induction false} SplitHead(s: string, sep: char)
    ensures |Split(s, sep)[0]| <= |s|
    ensures s[..|Split(s, sep)[0]|] == Split(s, sep)[0]
    ensures |Split(s, sep)[0]| < |s| ==> s[|Split(s, sep)[0]|] == sep
    ensures |Split(s, sep)[0]| == |s| <==> |Split(s, sep)| == 1
  {
    if s != [] {
      SplitHead(s[1..], sep);
    }
  }

  // ---------------------------------------------------------------- lower

  /** `str.lower` on one character; only ASCII letters are folded. */
  function LowerChar(c: char): char
  {
    if 'A' <= c <= 'Z' then (c as int + 32) as char else c
  }

  function Lower(s: string): (r: string)
    ensures |r| == |s|
    ensures forall k :: 0 <= k < |s| ==> r[k] == LowerChar(s[k])
  {
    seq(|s|, k requires 0 <= k < |s| => LowerChar(s[k]))
  }

  // ---------------------------------------------------------------- strip

  /** `s.lstrip(cs)`: drops every leading character that is in `cs`. */
  function LStrip(s: string, cs: set<char>): (r: string)
    ensures |r| <= |s| && r == s[|s| - |r|..]
    ensures forall k :: 0 <= k < |s| - |r| ==> s[k] in cs
    ensures r == [] || r[0] !in cs
  {
    if s != [] && s[0] in cs then LStrip(s[1..], cs) else s
  }

  /** `s.rstrip(cs)`: drops every trailing character that is in `cs`. */
  function RStrip(s: string, cs: set<char>): (r: string)
    ensures |r| <= |s| && r == s[..|r|]
    ensures forall k :: |r| <= k < |s| ==> s[k] in cs
    ensures r == [] || r[|r| - 1] !in cs
  {
    if s != [] && s[|s| - 1] in cs then RStrip(s[..|s| - 1], cs) else s
  }

  /** `s.replace(c, "")` for a one-character pattern. */
  function Remove(s: string, c: char): string
  {
    if s == [] then []
    else (if s[0] == c then [] else [s[0]]) + Remove(s[1..], c)
  }

  /** No `c` is left, every other character is kept as often as it occurs,
      and a text without `c` is unchanged. */
  lemma {:induction false} RemoveSpec(s: string, c: char)
    ensures var r := Remove(s, c);
            && c !in r
            && (c !in s ==> r == s)
            && (forall d :: d != c ==> (d in r <==> d in s))
            && multiset(r) == multiset(s)[c := 0]
  {
    if s != [] {
      assert s == [s[0]] + s[1..];
      RemoveSpec(s[1..], c);
    }
  }

  lemma RemoveCons(x: char, t: string, c: char)
    ensures Remove([x] + t, c) == (if x == c then [] else [x]) + Remove(t, c)
  {
    assert ([x] + t)[1..] == t;
  }

  /** Removing from a concatenation removes from each part, in order. */
  lemma {:induction false} RemoveAppend(a: string, b: string, c: char)
    ensures Remove(a + b, c) == Remove(a, c) + Remove(b, c)
  {
    if a == [] {
      assert a + b == b;
    } else {
      var t := a[1..];
      assert a == [a[0]] + t && a + b == [a[0]] + (t + b);
      RemoveCons(a[0], t, c);
      RemoveCons(a[0], t + b, c);
      RemoveAppend(t, b, c);
    }
  }

  // ---------------------------------------------------------------- lines

  /** Reading a file in text mode: "\r\n" and a lone "\r" become "\n". */
  function Universal(s: string): (r: string)
    ensures '\r' !in r
    ensures '\r' !in s ==> r == s
  {
    if s == [] then []
    else if s[0] == '\r' then
      (if |s| > 1 && s[1] == '\n' then "\n" + Universal(s[2..]) else "\n" + Universal(s[1..]))
    else [s[0]] + Universal(s[1..])
  }

  /** One step of `Universal`: the first line break or character, then
      the rest. */
  lemma UniversalHead(s: string, n: nat, h: string)
    requires s != []
    requires n == if s[0] == '\r' && |s| > 1 && s[1] == '\n' then 2 else 1
    requires h == if s[0] == '\r' then "\n" else [s[0]]
    ensures Universal(s) == h + Universal(s[n..])
  {
  }

  /** Text mode changes nothing but the line breaks: with every "\r" and
      "\n" taken out, before and after read the same. */
  lemma {:induction false} UniversalText(s: string)
    ensures Remove(Universal(s), '\n') == Remove(Remove(s, '\r'), '\n')
    decreases |s|
  {
    if s != [] {
      var n := if s[0] == '\r' && |s| > 1 && s[1] == '\n' then 2 else 1;
      var h := if s[0] == '\r' then "\n" else [s[0]];
      var p, t := s[..n], s[n..];
      calc {
        Remove(Universal(s), '\n');
        { UniversalHead(s, n, h); }
        Remove(h + Universal(t), '\n');
        { RemoveAppend(h, Universal(t), '\n'); }
        Remove(h, '\n') + Remove(Universal(t), '\n');
        { UniversalText(t); BreakRemoved(p, h); }
        Remove(Remove(p, '\r'), '\n') + Remove(Remove(t, '\r'), '\n');
        { RemoveAppend(Remove(p, '\r'), Remove(t, '\r'), '\n'); }
        Remove(Remove(p, '\r') + Remove(t, '\r'), '\n');
        { assert s == p + t; RemoveAppend(p, t, '\r'); }
        Remove(Remove(s, '\r'), '\n');
      }
    }
  }

  /** One line break, or one other character, read the same with every
      "\r" and "\n" taken out. */
  lemma BreakRemoved(p: string, h: string)
    requires p == "\r" || p == "\r\n" || (|p| == 1 && p[0] != '\r')
    requires h == if p[0] == '\r' then "\n" else p
    ensures Remove(h, '\n') == Remove(Remove(p, '\r'), '\n')
  {
    if |p| == 2 {
      assert p[1..] == "\n";
      assert Remove(p[1..], '\r') == "\n";
    }
  }

  /** A text split anywhere but just after a "\r" converts part by part;
      with `a` ending in "\r" and `b` starting with "\n" the pair would
      instead become one "\n". */
  lemma {:induction false} UniversalAppend(a: string, b: string)
    requires a == [] || a[|a| - 1] != '\r'
    ensures Universal(a + b) == Universal(a) + Universal(b)
  {
    if a == [] {
      assert a + b == b;
    } else {
      var n := if a[0] == '\r' && |a| > 1 && a[1] == '\n' then 2 else 1;
      var h := if a[0] == '\r' then "\n" else [a[0]];
      var t := a[n..];
      calc {
        Universal(a + b);
        { assert (a + b)[0] == a[0] && (a + b)[n..] == t + b;
          if a[0] == '\r' { assert (a + b)[1] == a[1]; }
          UniversalHead(a + b, n, h); }
        h + Universal(t + b);
        { UniversalAppend(t, b); }
        h + (Universal(t) + Universal(b));
        { UniversalHead(a, n, h); }
        Universal(a) + Universal(b);
      }
    }
  }

  /** Length of the first line of `s`, its "\n" included when there is one. */
  function LineLength(s: string): (n: nat)
    requires s != []
    ensures 1 <= n <= |s|
    ensures '\n' !in s[..n - 1]
    ensures n < |s| ==> s[n - 1] == '\n'
  {
    if s[0] == '\n' || |s| == 1 then 1
    else
      var n := 1 + LineLength(s[1..]);
      assert s[..n - 1] == [s[0]] + s[1..][..n - 2];
      n
  }

  function Concat(ls: seq<string>): string
  {
    if ls == [] then [] else ls[0] + Concat(ls[1..])
  }

  /** `readlines()`: each line keeps its "\n"; only the last may lack one. */
  function Lines(s: string): (ls: seq<string>)
    ensures forall k :: 0 <= k < |ls| ==> ls[k] != []
    ensures Concat(ls) == s
    decreases |s|
  {
    if s == [] then []
    else
      var n := LineLength(s);
      assert s == s[..n] + s[n..];
      [s[..n]] + Lines(s[n..])
  }

  /** Each line holds no "\n" but possibly its last character, and every
      line but the last ends in one. */
  ghost predicate BrokenAtNewlines(ls: seq<string>)
  {
    && (forall k :: 0 <= k < |ls| ==> ls[k] != [] && '\n' !in ls[k][..|ls[k]| - 1])
    && (forall k :: 0 <= k < |ls| - 1 ==> ls[k][|ls[k]| - 1] == '\n')
  }

  /** `readlines()` breaks the text exactly after each "\n". */
  lemma {:induction false} LinesBreaks(s: string)
    ensures BrokenAtNewlines(Lines(s))
    decreases |s|
  {
    if s != [] {
      var n := LineLength(s);
      var rest := Lines(s[n..]);
      LinesBreaks(s[n..]);
      var ls := Lines(s);
      assert ls == [s[..n]] + rest;
      forall k | 0 <= k < |ls|
        ensures ls[k] != [] && '\n' !in ls[k][..|ls[k]| - 1]
        ensures k < |ls| - 1 ==> ls[k][|ls[k]| - 1] == '\n'
      {
        if k == 0 {
          assert ls[0] == s[..n];
          assert ls[0][..n - 1] == s[..n - 1];
          if rest != [] {
            assert n < |s|;
          }
        } else {
          assert ls[k] == rest[k - 1];
        }
      }
    }
  }

  /** A line that ends in its only "\n" is cut off on its own. */
  lemma LinesCons(line: string, rest: string)
    requires line != [] && line[|line| - 1] == '\n' && '\n' !in line[..|line| - 1]
    ensures Lines(line + rest) == [line] + Lines(rest)
  {
    var s := line + rest;
    assert s[..|line|] == line && s[|line|..] == rest;
    assert s[..|line| - 1] == line[..|line| - 1];
    var n := LineLength(s);
    assert s[|line| - 1] == '\n';
    assert n == |line|;
  }

  // ---------------------------------------------------------------- integers

  function Digit(d: nat): char
    requires d < 10
  {
    ('0' as int + d) as char
  }

  predicate AllDigits(s: string)
  {
    forall k :: 0 <= k < |s| ==> '0' <= s[k] <= '9'
  }

  function NatToString(n: nat): (s: string)
    ensures s != [] && AllDigits(s)
  {
    if n < 10 then [Digit(n)] else NatToString(n / 10) + [Digit(n % 10)]
  }

  /** `str(n)` for an int: decimal digits, with a leading "-" when negative. */
  function IntToString(n: int): (s: string)
    ensures s != []
    ensures forall k :: 0 <= k < |s| ==> s[k] == '-' || '0' <= s[k] <= '9'
  {
    if n < 0 then "-" + NatToString(-n) else NatToString(n)
  }

  /** The ASCII whitespace that `int()` ignores around its argument. */
  const Whitespace: set<char> := {' ', '\t', '\n', '\r', '\U{0B}', '\U{0C}'}

  function DigitsValue(s: string): nat
    requires AllDigits(s)
  {
    if s == [] then 0 else DigitsValue(s[..|s| - 1]) * 10 + (s[|s| - 1] as int - '0' as int)
  }

  function ParseNat(s: string): Option<nat>
  {
    if s != [] && AllDigits(s) then Some(DigitsValue(s)) else None
  }

  /** `int(s)`: surrounding whitespace, an optional sign, then one or more
      digits; anything else is a ValueError (`None`). */
  function ParseInt(s: string): Option<int>
  {
    ParseSigned(RStrip(LStrip(s, Whitespace), Whitespace))
  }

  /** `int()` fails on a string of whitespace only, and succeeds only on a
      string that holds a digit. */
  lemma ParseIntShape(s: string)
    ensures (forall k :: 0 <= k < |s| ==> s[k] in Whitespace) ==> ParseInt(s).None?
    ensures ParseInt(s).Some? ==> exists k :: 0 <= k < |s| && '0' <= s[k] <= '9'
  {
    var l := LStrip(s, Whitespace);
    var t := RStrip(l, Whitespace);
    if ParseInt(s).Some? {
      var i := SignedDigit(t);
      assert t[i] == l[i];
      assert l[i] == s[|s| - |l| + i];
    }
    if l != [] {
      assert l[0] == s[|s| - |l|];
    }
  }

  /** A parsed integer has a digit, just after its sign if any. */
  lemma SignedDigit(t: string) returns (i: nat)
    requires ParseSigned(t).Some?
    ensures i < |t| && '0' <= t[i] <= '9'
  {
    i := if t[0] == '-' || t[0] == '+' then 1 else 0;
    assert t[i..] != [] && AllDigits(t[i..]);
    assert t[i..][0] == t[i];
  }

  function ParseSigned(t: string): Option<int>
  {
    if t != [] && (t[0] == '-' || t[0] == '+') then
      match ParseNat(t[1..])
      case None => None
      case Some(n) => if t[0] == '-' then Some(0 - n) else Some(n)
    else
      match ParseNat(t)
      case None => None
      case Some(n) => Some(n)
  }

  lemma {:induction false} NatRoundTrip(n: nat)
    ensures DigitsValue(NatToString(n)) == n
  {
    if n >= 10 {
      NatRoundTrip(n / 10);
      var s := NatToString(n);
      assert s[..|s| - 1] == NatToString(n / 10);
      assert s[|s| - 1] as int - '0' as int == n % 10;
      assert (n / 10) * 10 + n % 10 == n;
    }
  }

  lemma StripNothing(s: string, cs: set<char>)
    requires s != [] && s[0] !in cs && s[|s| - 1] !in cs
    ensures RStrip(LStrip(s, cs), cs) == s
  {
  }

  lemma NatParse(n: nat)
    ensures ParseNat(NatToString(n)) == Some(n)
  {
    NatRoundTrip(n);
  }

  /** `int(str(n)) == n`. */
  lemma IntRoundTrip(n: int)
    ensures ParseInt(IntToString(n)) == Some(n)
  {
    var s := IntToString(n);
    if n < 0 {
      var t := NatToString(-n);
      assert s == "-" + t && s[|s| - 1] == t[|t| - 1];
      DigitNotSpace(t[|t| - 1]);
      assert '-' !in Whitespace;
      Unpadded(s);
      NegativeParse(-n);
    } else {
      DigitNotSpace(s[0]);
      DigitNotSpace(s[|s| - 1]);
      Unpadded(s);
      NaturalParse(n);
    }
  }

  lemma DigitNotSpace(c: char)
    requires '0' <= c <= '9'
    ensures c !in Whitespace
  {
  }

  /** No whitespace at either end: `int()` sees the text as it is. */
  lemma Unpadded(s: string)
    requires s != [] && s[0] !in Whitespace && s[|s| - 1] !in Whitespace
    ensures ParseInt(s) == ParseSigned(s)
  {
    StripNothing(s, Whitespace);
  }

  lemma NaturalParse(n: nat)
    ensures ParseSigned(NatToString(n)) == Some(n)
  {
    var s := NatToString(n);
    assert '0' <= s[0] <= '9';
    NatParse(n);
  }

  lemma NegativeParse(m: nat)
    requires m > 0
    ensures ParseSigned("-" + NatToString(m)) == Some(-(m as int))
  {
    var s := "-" + NatToString(m);
    assert s[1..] == NatToString(m);
    NatParse(m);
  }
}
