/** The textual form of a clock, which sibling deduplication uses as its key. */
module ClockText {
  import opened Common
  import opened VClock

  const COLON: Byte := 58
  const AT: Byte := 64

  function Dec(n: nat): Bytes {
    if n < 10 then [48 + n] else Dec(n / 10) + [48 + n % 10]
  }

  function DecInt(x: int): Bytes {
    if x < 0 then [45] + Dec(-x) else Dec(x)
  }

  /** `node:counter@timestamp` */
  function EntryText(n: NodeID, e: Entry): Bytes {
    n + ([COLON] + (Dec(e.counter) + ([AT] + DecInt(e.timestamp))))
  }

  /** The entries of `ids` after the opening bracket, separated by a comma and a space. */
  function Body(c: Clock, ids: seq<NodeID>, first: bool): Bytes
    requires forall i :: 0 <= i < |ids| ==> ids[i] in c
  {
    if ids == [] then [93]
    else (if first then [] else [44, 32]) + (EntryText(ids[0], c[ids[0]]) + Body(c, ids[1..], false))
  }

  lemma SortedIdsInClock(c: Clock)
    ensures forall i :: 0 <= i < |SortedIds(c.Keys)| ==> SortedIds(c.Keys)[i] in c
    ensures Elements(SortedIds(c.Keys)) == c.Keys && |SortedIds(c.Keys)| == |c|
  {
    SortedIdsAreSorted(c.Keys);
    forall i | 0 <= i < |SortedIds(c.Keys)| ensures SortedIds(c.Keys)[i] in c {
      assert SortedIds(c.Keys)[i] in Elements(SortedIds(c.Keys));
    }
  }

  function ClockString(c: Clock): Bytes {
    SortedIdsInClock(c);
    [91] + Body(c, SortedIds(c.Keys), true)
  }

  // ----- the key identifies the clock when no identifier holds a colon -----

  predicate PlainId(n: NodeID) {
    COLON !in n
  }

  predicate PlainClock(c: Clock) {
    forall n :: n in c ==> PlainId(n)
  }

  predicate IdByte(b: Byte) {
    97 <= b <= 122 || 65 <= b <= 90 || 48 <= b <= 57 || b == 45 || b == 95
  }

  /** What the cluster configuration accepts as a node identifier. */
  predicate ValidNodeID(n: NodeID) {
    1 <= |n| <= 64 && forall b :: b in n ==> IdByte(b)
  }

  predicate Digit(b: Byte) {
    48 <= b <= 57 || b == 45
  }

  lemma {:induction false} DecIsDigits(n: nat)
    ensures |Dec(n)| > 0
    ensures forall b :: b in Dec(n) ==> 48 <= b <= 57
    ensures n > 0 ==> Dec(n)[0] != 48
  {
    if n >= 10 {
      DecIsDigits(n / 10);
    }
  }

  lemma {:induction false} DecInjective(m: nat, n: nat)
    requires Dec(m) == Dec(n)
    ensures m == n
    decreases m + n
  {
    DecIsDigits(m / 10);
    DecIsDigits(n / 10);
    var d, e := Dec(m), Dec(n);
    assert d[|d| - 1] == 48 + m % 10 && e[|e| - 1] == 48 + n % 10;
    if m >= 10 && n >= 10 {
      assert d[..|d| - 1] == Dec(m / 10) && e[..|e| - 1] == Dec(n / 10);
      DecInjective(m / 10, n / 10);
    }
  }

  lemma DecIntIsDigits(x: int)
    ensures |DecInt(x)| > 0 && (DecInt(x)[0] == 45 <==> x < 0)
    ensures forall b :: b in DecInt(x) ==> Digit(b)
  {
    var n := if x < 0 then -x else x;
    DecIsDigits(n);
    assert Dec(n)[0] in Dec(n);
  }

  lemma DecIntInjective(x: int, y: int)
    requires DecInt(x) == DecInt(y)
    ensures x == y
  {
    DecIntIsDigits(x);
    DecIntIsDigits(y);
    if x < 0 {
      assert DecInt(x)[1..] == Dec(-x) && DecInt(y)[1..] == Dec(-y);
      DecInjective(-x, -y);
    } else {
      DecInjective(x, y);
    }
  }

  /** A text splits in only one way at the first byte outside `inside`. */
  lemma SplitUnique(inside: Byte -> bool, p: Bytes, s: Bytes, q: Bytes, t: Bytes)
    requires p + s == q + t && s != [] && t != []
    requires (forall b :: b in p ==> inside(b)) && (forall b :: b in q ==> inside(b))
    requires !inside(s[0]) && !inside(t[0])
    ensures p == q && s == t
  {
    var all := p + s;
    assert forall i :: 0 <= i < |p| ==> all[i] in p;
    assert forall i :: 0 <= i < |q| ==> all[i] in q;
    assert all[|p|] == s[0];
    assert all[|q|] == (q + t)[|q|] == t[0];
    assert p == all[..|p|] && q == all[..|q|];
    assert s == all[|p|..] && t == all[|q|..];
  }

  lemma TimestampUnique(x: Int64, s: Bytes, y: Int64, t: Bytes)
    requires s != [] && t != [] && !Digit(s[0]) && !Digit(t[0])
    requires DecInt(x) + s == DecInt(y) + t
    ensures x == y && s == t
  {
    DecIntIsDigits(x);
    DecIntIsDigits(y);
    SplitUnique(Digit, DecInt(x), s, DecInt(y), t);
    DecIntInjective(x, y);
  }

  lemma CounterUnique(x: Uint64, s: Bytes, y: Uint64, t: Bytes)
    requires Dec(x) + ([AT] + s) == Dec(y) + ([AT] + t)
    ensures x == y && s == t
  {
    DecIsDigits(x);
    DecIsDigits(y);
    SplitUnique(Digit, Dec(x), [AT] + s, Dec(y), [AT] + t);
    DecInjective(x, y);
    assert s == ([AT] + s)[1..] && t == ([AT] + t)[1..];
  }

  lemma IdUnique(m: NodeID, s: Bytes, n: NodeID, t: Bytes)
    requires PlainId(m) && PlainId(n)
    requires m + ([COLON] + s) == n + ([COLON] + t)
    ensures m == n && s == t
  {
    SplitUnique(b => b != COLON, m, [COLON] + s, n, [COLON] + t);
    assert s == ([COLON] + s)[1..] && t == ([COLON] + t)[1..];
  }

  lemma EntryTextFollowedBy(n: NodeID, e: Entry, s: Bytes)
    ensures EntryText(n, e) + s == n + ([COLON] + (Dec(e.counter) + ([AT] + (DecInt(e.timestamp) + s))))
  {
    var ts := DecInt(e.timestamp);
    var c := Dec(e.counter);
    assert (c + ([AT] + ts)) + s == c + ([AT] + (ts + s));
  }

  lemma EntryTextUnique(m: NodeID, d: Entry, s: Bytes, n: NodeID, e: Entry, t: Bytes)
    requires PlainId(m) && PlainId(n)
    requires s != [] && t != [] && !Digit(s[0]) && !Digit(t[0])
    requires EntryText(m, d) + s == EntryText(n, e) + t
    ensures m == n && d == e && s == t
  {
    EntryTextFollowedBy(m, d, s);
    EntryTextFollowedBy(n, e, t);
    var dt, et := DecInt(d.timestamp) + s, DecInt(e.timestamp) + t;
    IdUnique(m, Dec(d.counter) + ([AT] + dt), n, Dec(e.counter) + ([AT] + et));
    CounterUnique(d.counter, dt, e.counter, et);
    TimestampUnique(d.timestamp, s, e.timestamp, t);
  }

  lemma BodyShape(c: Clock, ids: seq<NodeID>)
    requires forall i :: 0 <= i < |ids| ==> ids[i] in c
    ensures |Body(c, ids, false)| > 0 && !Digit(Body(c, ids, false)[0])
  {
  }

  lemma {:induction false} BodyInjective(a: Clock, x: seq<NodeID>, b: Clock, y: seq<NodeID>, first: bool)
    requires forall i :: 0 <= i < |x| ==> x[i] in a && PlainId(x[i])
    requires forall i :: 0 <= i < |y| ==> y[i] in b && PlainId(y[i])
    requires Body(a, x, first) == Body(b, y, first)
    ensures x == y && forall i :: 0 <= i < |x| ==> a[x[i]] == b[x[i]]
    decreases |x|
  {
    if x == [] || y == [] {
      assert |x| == 0 <==> |Body(a, x, first)| == 1;
      assert |y| == 0 <==> |Body(b, y, first)| == 1;
    } else {
      var s, t := Body(a, x[1..], false), Body(b, y[1..], false);
      var sep: Bytes := if first then [] else [44, 32];
      var l, r := EntryText(x[0], a[x[0]]) + s, EntryText(y[0], b[y[0]]) + t;
      assert l == (sep + l)[|sep|..] && r == (sep + r)[|sep|..];
      BodyShape(a, x[1..]);
      BodyShape(b, y[1..]);
      EntryTextUnique(x[0], a[x[0]], s, y[0], b[y[0]], t);
      BodyInjective(a, x[1..], b, y[1..], false);
      assert x == [x[0]] + x[1..] && y == [y[0]] + y[1..];
    }
  }

  /** The text of a clock determines the clock, timestamps included, when its node identifiers are plain. */
  lemma ClockStringInjective(a: Clock, b: Clock)
    requires PlainClock(a) && PlainClock(b)
    requires ClockString(a) == ClockString(b)
    ensures a == b
  {
    SortedIdsInClock(a);
    SortedIdsInClock(b);
    var x, y := SortedIds(a.Keys), SortedIds(b.Keys);
    assert Body(a, x, true) == ClockString(a)[1..] && Body(b, y, true) == ClockString(b)[1..];
    BodyInjective(a, x, b, y, true);
    assert a.Keys == Elements(x) == b.Keys;
    forall n | n in a ensures a[n] == b[n] {
      assert n in Elements(x);
    }
  }

  // ----- texts of clocks of the same nodes, whatever follows them -----

  lemma EntrySame(n: NodeID, d: Entry, s: Bytes, e: Entry, t: Bytes)
    requires s != [] && t != [] && !Digit(s[0]) && !Digit(t[0])
    requires EntryText(n, d) + s == EntryText(n, e) + t
    ensures d == e && s == t
  {
    EntryTextFollowedBy(n, d, s);
    EntryTextFollowedBy(n, e, t);
    var dt, et := DecInt(d.timestamp) + s, DecInt(e.timestamp) + t;
    var x, y := Dec(d.counter) + ([AT] + dt), Dec(e.counter) + ([AT] + et);
    assert (n + ([COLON] + x))[|n| + 1..] == x && (n + ([COLON] + y))[|n| + 1..] == y;
    CounterUnique(d.counter, dt, e.counter, et);
    TimestampUnique(d.timestamp, s, e.timestamp, t);
  }

  lemma BodyStep(c: Clock, ids: seq<NodeID>, first: bool, p: Bytes)
    requires ids != [] && forall i :: 0 <= i < |ids| ==> ids[i] in c
    ensures var sep: Bytes := if first then [] else [44, 32];
            Body(c, ids, first) + p == sep + (EntryText(ids[0], c[ids[0]]) + (Body(c, ids[1..], false) + p))
  {
    var sep: Bytes := if first then [] else [44, 32];
    var e, rest := EntryText(ids[0], c[ids[0]]), Body(c, ids[1..], false);
    Assoc(sep, e + rest, p);
    Assoc(e, rest, p);
  }

  lemma {:induction false} BodySame(a: Clock, b: Clock, ids: seq<NodeID>, first: bool, p: Bytes, q: Bytes)
    requires forall i :: 0 <= i < |ids| ==> ids[i] in a && ids[i] in b
    requires Body(a, ids, first) + p == Body(b, ids, first) + q
    ensures p == q && forall i :: 0 <= i < |ids| ==> a[ids[i]] == b[ids[i]]
    decreases |ids|
  {
    if ids == [] {
      assert p == (Body(a, ids, first) + p)[1..] && q == (Body(b, ids, first) + q)[1..];
    } else {
      var s, t := Body(a, ids[1..], false) + p, Body(b, ids[1..], false) + q;
      var sep: Bytes := if first then [] else [44, 32];
      var l, r := EntryText(ids[0], a[ids[0]]) + s, EntryText(ids[0], b[ids[0]]) + t;
      BodyStep(a, ids, first, p);
      BodyStep(b, ids, first, q);
      assert l == (sep + l)[|sep|..] && r == (sep + r)[|sep|..];
      BodyShape(a, ids[1..]);
      BodyShape(b, ids[1..]);
      EntrySame(ids[0], a[ids[0]], s, b[ids[0]], t);
      BodySame(a, b, ids[1..], false, p, q);
      assert ids == [ids[0]] + ids[1..];
    }
  }

  lemma DropFirst(b: Byte, x: Bytes, p: Bytes, y: Bytes, q: Bytes)
    requires ([b] + x) + p == ([b] + y) + q
    ensures x + p == y + q
  {
    Assoc([b], x, p);
    Assoc([b], y, q);
    assert ([b] + (x + p))[1..] == x + p && ([b] + (y + q))[1..] == y + q;
  }

  /** Two clocks of the same nodes with the same text at the start of the same bytes are equal. */
  lemma ClockStringSame(a: Clock, b: Clock, p: Bytes, q: Bytes)
    requires a.Keys == b.Keys && ClockString(a) + p == ClockString(b) + q
    ensures a == b && p == q
  {
    SortedIdsInClock(a);
    SortedIdsInClock(b);
    var ids := SortedIds(a.Keys);
    var x, y := Body(a, ids, true), Body(b, ids, true);
    DropFirst(91, x, p, y, q);
    BodySame(a, b, ids, true, p, q);
    forall n | n in a ensures a[n] == b[n] {
      assert n in Elements(ids);
    }
  }

  // ----- the form of the text -----

  /** The number that a row of digits stands for. */
  function Decimal(b: Bytes): int {
    if b == [] then 0 else 10 * Decimal(b[..|b| - 1]) + (b[|b| - 1] as int - 48)
  }

  /** Digits without a leading zero that stand for the number. */
  lemma {:induction false} DecIsDecimal(n: nat)
    ensures Dec(n) != [] && Decimal(Dec(n)) == n && (n > 0 ==> Dec(n)[0] != 48)
    ensures forall i :: 0 <= i < |Dec(n)| ==> 48 <= Dec(n)[i] <= 57
  {
    if n < 10 {
      assert Dec(n)[..0] == [];
    } else {
      DecIsDecimal(n / 10);
      var b := Dec(n);
      assert b[..|b| - 1] == Dec(n / 10);
    }
  }

  /** The entries, each `node:counter@time`, with a comma and a space between any two. */
  function Listed(c: Clock, ids: seq<NodeID>): Bytes
    requires forall i :: 0 <= i < |ids| ==> ids[i] in c
  {
    if ids == [] then [] else
      var n := |ids| - 1;
      var e := c[ids[n]];
      (if n == 0 then [] else Listed(c, ids[..n]) + [44, 32]) +
      (ids[n] + ([58] + (Dec(e.counter) + ([64] + DecInt(e.timestamp)))))
  }

  /** The body without its closing bracket. */
  function Front(c: Clock, ids: seq<NodeID>, first: bool): Bytes
    requires forall i :: 0 <= i < |ids| ==> ids[i] in c
  {
    if ids == [] then []
    else (if first then [] else [44, 32]) + (EntryText(ids[0], c[ids[0]]) + Front(c, ids[1..], false))
  }

  lemma {:induction false} BodyIsFront(c: Clock, ids: seq<NodeID>, first: bool)
    requires forall i :: 0 <= i < |ids| ==> ids[i] in c
    ensures Body(c, ids, first) == Front(c, ids, first) + [93]
    decreases |ids|
  {
    if ids == [] {
      assert [] + [93] == [93];
    } else {
      BodyIsFront(c, ids[1..], false);
      var sep: Bytes, text := if first then [] else [44, 32], EntryText(ids[0], c[ids[0]]);
      Assoc(text, Front(c, ids[1..], false), [93]);
      Assoc(sep, text + Front(c, ids[1..], false), [93]);
    }
  }

  lemma {:induction false} FrontSnoc(c: Clock, ids: seq<NodeID>, n: NodeID, first: bool)
    requires n in c && forall i :: 0 <= i < |ids| ==> ids[i] in c
    ensures Front(c, ids + [n], first) ==
            Front(c, ids, first) + ((if first && ids == [] then [] else [44, 32]) + EntryText(n, c[n]))
    decreases |ids|
  {
    var sep: Bytes, last := if first then [] else [44, 32], EntryText(n, c[n]);
    if ids == [] {
      assert ids + [n] == [n] && [n][1..] == [];
      assert Front(c, [n], first) == sep + (last + Front(c, [], false));
      assert last + [] == last && [] + (sep + last) == sep + last;
    } else {
      assert (ids + [n])[0] == ids[0] && (ids + [n])[1..] == ids[1..] + [n];
      FrontSnoc(c, ids[1..], n, false);
      var text, rest := EntryText(ids[0], c[ids[0]]), Front(c, ids[1..], false);
      Assoc(text, rest, [44, 32] + last);
      Assoc(sep, text + rest, [44, 32] + last);
    }
  }

  lemma ListedSnoc(c: Clock, ids: seq<NodeID>)
    requires ids != [] && forall i :: 0 <= i < |ids| ==> ids[i] in c
    ensures var n := |ids| - 1;
            Listed(c, ids) ==
            Listed(c, ids[..n]) + ((if ids[..n] == [] then [] else [44, 32]) + EntryText(ids[n], c[ids[n]]))
  {
    var n := |ids| - 1;
    var text := EntryText(ids[n], c[ids[n]]);
    if n == 0 {
      assert Listed(c, ids[..0]) == [] && [] + text == text;
    } else {
      Assoc(Listed(c, ids[..n]), [44, 32], text);
    }
  }

  lemma {:induction false} FrontIsListed(c: Clock, ids: seq<NodeID>)
    requires forall i :: 0 <= i < |ids| ==> ids[i] in c
    ensures Front(c, ids, true) == Listed(c, ids)
  {
    if ids != [] {
      var n := |ids| - 1;
      FrontIsListed(c, ids[..n]);
      assert ids[..n] + [ids[n]] == ids;
      FrontSnoc(c, ids[..n], ids[n], true);
      ListedSnoc(c, ids);
    }
  }

  /** A clock reads `[node:counter@time, node:counter@time]`, by ascending identifier. */
  lemma TextForm(c: Clock)
    ensures Ascending(SortedIds(c.Keys)) && Elements(SortedIds(c.Keys)) == c.Keys
    ensures forall i :: 0 <= i < |SortedIds(c.Keys)| ==> SortedIds(c.Keys)[i] in c
    ensures ClockString(c) == [91] + (Listed(c, SortedIds(c.Keys)) + [93])
  {
    SortedIdsAreSorted(c.Keys);
    SortedIdsInClock(c);
    BodyIsFront(c, SortedIds(c.Keys), true);
    FrontIsListed(c, SortedIds(c.Keys));
  }

  /** Identifiers accepted by the configuration are plain, so they are safe for deduplication. */
  lemma ValidIdIsPlain(n: NodeID)
    requires ValidNodeID(n)
    ensures PlainId(n)
  {
    assert !IdByte(COLON);
  }

  lemma SortedPair(x: NodeID, y: NodeID)
    requires Less(x, y)
    ensures SortedIds({x, y}) == [x, y]
  {
    LessIsStrict(x);
    var r := SortedIds({x, y});
    SortedIdsAreSorted({x, y});
    assert r[0] in Elements(r) && r[1] in Elements(r);
    assert Less(r[0], r[1]);
    if r[0] == y {
      LessIsStrict(y);
      LessIsTransitive(x, y, x);
      assert false;
    }
    LessIsStrict(r[0]);
  }

  lemma SingletonString(n: NodeID, e: Entry)
    ensures ClockString(map[n := e]) == [91] + (EntryText(n, e) + [93])
  {
    var c := map[n := e];
    var x := SortedIds(c.Keys);
    assert c.Keys == {n};
    SortedIdsInClock(c);
    assert x[0] in Elements(x);
    assert x == [n] && x[1..] == [];
    assert Body(c, x, true) == [] + (EntryText(n, e) + [93]);
  }

  lemma PairString(m: NodeID, d: Entry, n: NodeID, e: Entry)
    requires Less(m, n)
    ensures ClockString(map[m := d, n := e]) == [91] + (EntryText(m, d) + ([44, 32] + (EntryText(n, e) + [93])))
  {
    LessIsStrict(m);
    var c := map[m := d, n := e];
    assert c.Keys == {m, n};
    SortedPair(m, n);
    var x: seq<NodeID> := [m, n];
    assert x[1..] == [n] && x[1..][1..] == [];
    assert Body(c, [n], false) == [44, 32] + (EntryText(n, e) + [93]);
  }

  lemma OneText(n: NodeID)
    ensures EntryText(n, Entry(1, 1)) == n + [58, 49, 64, 49]
  {
    assert Dec(1) == DecInt(1) == [49];
  }

  lemma Regroup(x: Bytes, t: Bytes, sep: Bytes, y: Bytes, end: Bytes)
    ensures ((x + (t + (sep + y))) + t) + end == (x + t) + (sep + ((y + t) + end))
  {
  }

  lemma DifferentIdsAreConcurrent(m: NodeID, x: NodeID, y: NodeID)
    requires m != x && m != y
    ensures Compare(map[m := Entry(1, 1)], map[x := Entry(1, 1), y := Entry(1, 1)]) == Concurrent
  {
    var a, b: Clock := map[m := Entry(1, 1)], map[x := Entry(1, 1), y := Entry(1, 1)];
    assert m in a && Counter(b, m) < Counter(a, m);
    assert x in b && Counter(a, x) < Counter(b, x);
  }

  /** Without that restriction two unrelated clocks can share one text: `[a:1@1, b:1@1]`. */
  lemma ColonIdsCollide() returns (a: Clock, b: Clock)
    ensures ClockString(a) == ClockString(b)
    ensures Compare(a, b) == Concurrent
  {
    var x: NodeID, y: NodeID, one := [97], [98], Entry(1, 1);
    var id: NodeID := x + ([58, 49, 64, 49] + ([44, 32] + y));
    a := map[id := one];
    b := map[x := one, y := one];
    SingletonString(id, one);
    PairString(x, one, y, one);
    OneText(id);
    OneText(x);
    OneText(y);
    Regroup(x, [58, 49, 64, 49], [44, 32], y, [93]);
    assert |id| == 8;
    DifferentIdsAreConcurrent(id, x, y);
  }
}
