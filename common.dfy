/**
 * Shared vocabulary of the voting front end: optional values, the string
 * operations the pages use (ASCII case folding, JavaScript `trim`, substring
 * search, `${n}` rendering of counts), the countdown labels the pages show,
 * `filter`/`filter(...).length` over sequences, the contiguous vote-id range and
 * the stable descending sort that `Array.prototype.sort` performs with a
 * `b.votes - a.votes` comparator.
 */
module Common {

  datatype Option<+T> = None | Some(value: T)

  // ---------------------------------------------------------------------------
  // Characters and strings
  // ---------------------------------------------------------------------------

  /** `toLowerCase` on one character, restricted to the ASCII letters. */
  function Lower(c: char): char {
    if 'A' <= c <= 'Z' then (c as int + 32) as char else c
  }

  function LowerStr(s: string): (r: string)
    ensures |r| == |s|
    ensures forall i :: 0 <= i < |s| ==> r[i] == Lower(s[i])
  {
    seq(|s|, i requires 0 <= i < |s| => Lower(s[i]))
  }

  lemma LowerStrIdempotent(s: string)
    ensures LowerStr(LowerStr(s)) == LowerStr(s)
  {
  }

  /** Case-insensitive equality as `a.toLowerCase() === b.toLowerCase()`. */
  predicate SameIgnoringCase(a: string, b: string) {
    LowerStr(a) == LowerStr(b)
  }

  /** The characters JavaScript's `trim` removes (WhiteSpace and LineTerminator). */
  predicate IsJsSpace(c: char) {
    || c == ' ' || c == '\t' || c == '\n' || c == '\r'
    || c == '\U{000B}' || c == '\U{000C}' || c == '\U{00A0}' || c == '\U{1680}'
    || ('\U{2000}' <= c <= '\U{200A}')
    || c == '\U{2028}' || c == '\U{2029}' || c == '\U{202F}' || c == '\U{205F}'
    || c == '\U{3000}' || c == '\U{FEFF}'
  }

  /** `s.trimStart()`. */
  function TrimStart(s: string): (r: string)
    ensures |r| <= |s|
  {
    if s != [] && IsJsSpace(s[0]) then TrimStart(s[1..]) else s
  }

  /** `trimStart` drops a prefix of spaces and stops at the first other character. */
  lemma {:induction false} TrimStartDropsSpaces(s: string)
    ensures var r := TrimStart(s);
      && r == s[|s| - |r|..]
      && (forall i :: 0 <= i < |s| - |r| ==> IsJsSpace(s[i]))
      && (r == [] || !IsJsSpace(r[0]))
    decreases |s|
  {
    if s != [] && IsJsSpace(s[0]) {
      TrimStartDropsSpaces(s[1..]);
      var r := TrimStart(s);
      forall i | 0 < i < |s| - |r| ensures IsJsSpace(s[i]) {
        assert s[i] == s[1..][i - 1];
      }
    }
  }

  /** `s.trimEnd()`. */
  function TrimEnd(s: string): (r: string)
    ensures |r| <= |s|
  {
    if s != [] && IsJsSpace(s[|s| - 1]) then TrimEnd(s[..|s| - 1]) else s
  }

  /** `trimEnd` drops a suffix of spaces and stops at the last other character. */
  lemma {:induction false} TrimEndDropsSpaces(s: string)
    ensures var r := TrimEnd(s);
      && r == s[..|r|]
      && (forall i :: |r| <= i < |s| ==> IsJsSpace(s[i]))
      && (r == [] || !IsJsSpace(r[|r| - 1]))
    decreases |s|
  {
    if s != [] && IsJsSpace(s[|s| - 1]) {
      TrimEndDropsSpaces(s[..|s| - 1]);
      var r := TrimEnd(s);
      forall i | |r| <= i < |s| - 1 ensures IsJsSpace(s[i]) {
        assert s[i] == s[..|s| - 1][i];
      }
    }
  }

  /** Number of leading spaces `trim` drops. */
  function TrimOffset(s: string): nat {
    |s| - |TrimStart(s)|
  }

  /** `s.trim()`: drops the leading spaces, then the trailing ones. */
  function Trim(s: string): (r: string)
    ensures |r| <= |s|
  {
    TrimEnd(TrimStart(s))
  }

  /** The trimmed string is the longest slice of `s` that neither starts nor ends with a space. */
  lemma TrimIsSpaceFreeSlice(s: string)
    ensures var r := Trim(s);
      && TrimOffset(s) + |r| <= |s| && r == s[TrimOffset(s)..TrimOffset(s) + |r|]
      && (forall i :: 0 <= i < TrimOffset(s) ==> IsJsSpace(s[i]))
      && (forall i :: TrimOffset(s) + |r| <= i < |s| ==> IsJsSpace(s[i]))
      && (r != [] ==> !IsJsSpace(r[0]) && !IsJsSpace(r[|r| - 1]))
  {
    var t := TrimStart(s);
    var r := TrimEnd(t);
    var k := TrimOffset(s);
    TrimStartDropsSpaces(s);
    TrimEndDropsSpaces(t);
    assert t == s[k..];
    assert r == t[..|r|];
    assert r == s[k..k + |r|];
    forall i | k + |r| <= i < |s| ensures IsJsSpace(s[i]) {
      assert s[i] == t[i - k];
    }
  }

  /** `!s.trim()`: the string is empty or made of spaces only. */
  predicate IsBlank(s: string) {
    Trim(s) == ""
  }

  lemma {:induction false} TrimStartOfSpaces(s: string)
    requires forall i :: 0 <= i < |s| ==> IsJsSpace(s[i])
    ensures TrimStart(s) == ""
  {
    if s != [] {
      TrimStartOfSpaces(s[1..]);
    }
  }

  lemma BlankIffAllSpaces(s: string)
    ensures IsBlank(s) <==> forall i :: 0 <= i < |s| ==> IsJsSpace(s[i])
  {
    TrimIsSpaceFreeSlice(s);
    if forall i :: 0 <= i < |s| ==> IsJsSpace(s[i]) {
      TrimStartOfSpaces(s);
    }
  }

  predicate StartsWith(s: string, p: string) {
    |p| <= |s| && s[..|p|] == p
  }

  /** `s.includes(t)`. */
  predicate Includes(s: string, t: string)
    decreases |s|
  {
    StartsWith(s, t) || (s != [] && Includes(s[1..], t))
  }

  predicate OccursAt(s: string, t: string, i: int) {
    0 <= i <= |s| - |t| && s[i..i + |t|] == t
  }

  lemma {:induction false} IncludesIffOccurs(s: string, t: string)
    ensures Includes(s, t) <==> exists i :: OccursAt(s, t, i)
    decreases |s|
  {
    if s != [] {
      IncludesIffOccurs(s[1..], t);
      if exists i :: OccursAt(s, t, i) {
        var i :| OccursAt(s, t, i);
        if i > 0 {
          assert s[1..][i - 1..i - 1 + |t|] == t;
          assert OccursAt(s[1..], t, i - 1);
        } else {
          assert StartsWith(s, t);
        }
      }
      if StartsWith(s, t) {
        assert OccursAt(s, t, 0);
      }
      if Includes(s[1..], t) {
        var i :| OccursAt(s[1..], t, i);
        assert s[i + 1..i + 1 + |t|] == t;
        assert OccursAt(s, t, i + 1);
      }
    } else if t == [] {
      assert OccursAt(s, t, 0);
    }
  }

  // ---------------------------------------------------------------------------
  // Decimal rendering of counts, as `${n}` in a template literal
  // ---------------------------------------------------------------------------

  predicate IsDigit(c: char) {
    '0' <= c <= '9'
  }

  predicate AllDigits(s: string) {
    forall i :: 0 <= i < |s| ==> IsDigit(s[i])
  }

  function DigitChar(d: nat): (c: char)
    requires d < 10
    ensures IsDigit(c)
  {
    ('0' as int + d) as char
  }

  function DigitValue(c: char): (d: nat)
    requires IsDigit(c)
    ensures d < 10
  {
    c as int - '0' as int
  }

  function NatToString(n: nat): (r: string)
    ensures r != [] && AllDigits(r)
  {
    if n < 10 then [DigitChar(n)] else NatToString(n / 10) + [DigitChar(n % 10)]
  }

  function ParseDecimal(s: string): nat
    requires AllDigits(s)
  {
    if s == [] then 0 else ParseDecimal(s[..|s| - 1]) * 10 + DigitValue(s[|s| - 1])
  }

  lemma {:induction false} ParseRendered(n: nat)
    ensures ParseDecimal(NatToString(n)) == n
  {
    var r := NatToString(n);
    if n >= 10 {
      ParseRendered(n / 10);
      assert r[..|r| - 1] == NatToString(n / 10);
    }
  }

  // ---------------------------------------------------------------------------
  // Countdown labels shown by the pages
  // ---------------------------------------------------------------------------

  datatype Countdown =
    | Ended                                       // 已结束
    | EndingSoon                                  // 即将结束
    | DaysHours(days: nat, hours: nat)            // {d}天{h}小时
    | HoursMinutes(hours: nat, minutes: nat)      // {h}小时{m}分钟
    | MinutesSeconds(minutes: nat, seconds: nat)  // {m}分钟{s}秒
    | Minutes(minutes: nat)                       // {m}分钟
    | Seconds(seconds: nat)                       // {s}秒

  function Render(c: Countdown): string {
    match c
    case Ended => "已结束"
    case EndingSoon => "即将结束"
    case DaysHours(d, h) => NatToString(d) + "天" + NatToString(h) + "小时"
    case HoursMinutes(h, m) => NatToString(h) + "小时" + NatToString(m) + "分钟"
    case MinutesSeconds(m, s) => NatToString(m) + "分钟" + NatToString(s) + "秒"
    case Minutes(m) => NatToString(m) + "分钟"
    case Seconds(s) => NatToString(s) + "秒"
  }

  predicate IsCounting(c: Countdown) {
    !c.Ended? && !c.EndingSoon?
  }

  /** A label that counts starts with a digit; the two fixed words never do. */
  lemma RenderedCountStartsWithDigit(c: Countdown)
    ensures |Render(c)| > 0
    ensures IsDigit(Render(c)[0]) <==> IsCounting(c)
  {
    match c
    case DaysHours(d, h) => assert Render(c)[0] == NatToString(d)[0];
    case HoursMinutes(h, m) => assert Render(c)[0] == NatToString(h)[0];
    case MinutesSeconds(m, s) => assert Render(c)[0] == NatToString(m)[0];
    case Minutes(m) => assert Render(c)[0] == NatToString(m)[0];
    case Seconds(s) => assert Render(c)[0] == NatToString(s)[0];
    case Ended =>
    case EndingSoon =>
  }

  // ---------------------------------------------------------------------------
  // filter, filter(...).length, the id range
  // ---------------------------------------------------------------------------

  function Filter<T>(s: seq<T>, p: T -> bool): (r: seq<T>)
    ensures |r| <= |s|
    ensures forall x :: x in r ==> x in s && p(x)
  {
    if s == [] then [] else (if p(s[0]) then [s[0]] else []) + Filter(s[1..], p)
  }

  function Count<T>(s: seq<T>, p: T -> bool): (n: nat)
    ensures n <= |s|
  {
    if s == [] then 0 else (if p(s[0]) then 1 else 0) + Count(s[1..], p)
  }

  /** `r` is `s` with some elements dropped and the rest in their order. */
  predicate SubsequenceOf<T(==)>(r: seq<T>, s: seq<T>)
    decreases |s|
  {
    if r == [] then true
    else if s == [] then false
    else (r[0] == s[0] && SubsequenceOf(r[1..], s[1..])) || SubsequenceOf(r, s[1..])
  }

  lemma {:induction false} FilterIsSubsequence<T>(s: seq<T>, p: T -> bool)
    ensures SubsequenceOf(Filter(s, p), s)
    ensures forall i :: 0 <= i < |s| && p(s[i]) ==> s[i] in Filter(s, p)
  {
    if s != [] {
      FilterIsSubsequence(s[1..], p);
      var r := Filter(s, p);
      if !p(s[0]) {
        assert r == Filter(s[1..], p);
      } else {
        assert r[0] == s[0] && r[1..] == Filter(s[1..], p);
      }
      forall i | 0 <= i < |s| && p(s[i]) ensures s[i] in r {
        if i > 0 { assert s[i] == s[1..][i - 1]; }
      }
    }
  }

  lemma {:induction false} FilterLength<T>(s: seq<T>, p: T -> bool)
    ensures |Filter(s, p)| == Count(s, p)
  {
    if s != [] { FilterLength(s[1..], p); }
  }

  lemma {:induction false} FilterAppend<T>(a: seq<T>, b: seq<T>, p: T -> bool)
    ensures Filter(a + b, p) == Filter(a, p) + Filter(b, p)
  {
    if a == [] {
      assert a + b == b;
    } else {
      assert (a + b)[1..] == a[1..] + b;
      FilterAppend(a[1..], b, p);
    }
  }

  lemma {:induction false} CountAppend<T>(a: seq<T>, b: seq<T>, p: T -> bool)
    ensures Count(a + b, p) == Count(a, p) + Count(b, p)
  {
    FilterAppend(a, b, p);
    FilterLength(a + b, p);
    FilterLength(a, p);
    FilterLength(b, p);
  }

  lemma {:induction false} CountAllTrue<T>(s: seq<T>, p: T -> bool)
    requires forall x :: x in s ==> p(x)
    ensures Count(s, p) == |s|
  {
    if s != [] {
      assert forall x :: x in s[1..] ==> x in s;
      CountAllTrue(s[1..], p);
    }
  }

  lemma {:induction false} CountNoneTrue<T>(s: seq<T>, p: T -> bool)
    requires forall x :: x in s ==> !p(x)
    ensures Count(s, p) == 0
  {
    if s != [] {
      assert forall x :: x in s[1..] ==> x in s;
      CountNoneTrue(s[1..], p);
    }
  }

  /** Two predicates that partition the elements satisfying `q` split its count. */
  lemma {:induction false} CountPartition<T>(s: seq<T>, p1: T -> bool, p2: T -> bool, q: T -> bool)
    requires forall x :: x in s ==> ((p1(x) || p2(x)) <==> q(x)) && !(p1(x) && p2(x))
    ensures Count(s, p1) + Count(s, p2) == Count(s, q)
  {
    if s != [] {
      assert forall x :: x in s[1..] ==> x in s;
      CountPartition(s[1..], p1, p2, q);
    }
  }

  lemma {:induction false} CountPositiveIffExists<T>(s: seq<T>, p: T -> bool)
    ensures Count(s, p) > 0 <==> exists i :: 0 <= i < |s| && p(s[i])
  {
    if s != [] {
      CountPositiveIffExists(s[1..], p);
      if exists i :: 0 <= i < |s| && p(s[i]) {
        var i :| 0 <= i < |s| && p(s[i]);
        if i > 0 { assert p(s[1..][i - 1]); }
      }
      if exists i :: 0 <= i < |s| - 1 && p(s[1..][i]) {
        var i :| 0 <= i < |s| - 1 && p(s[1..][i]);
        assert p(s[i + 1]);
      }
    }
  }

  /** Counting over a mapped sequence counts the originals with the composed predicate. */
  lemma {:induction false} CountMap<A, B>(s: seq<A>, f: A -> B, p: B -> bool, q: A -> bool)
    requires forall x :: x in s ==> p(f(x)) == q(x)
    ensures Count(Map(s, f), p) == Count(s, q)
  {
    if s != [] {
      assert Map(s, f)[1..] == Map(s[1..], f);
      assert forall x :: x in s[1..] ==> x in s;
      CountMap(s[1..], f, p, q);
    }
  }

  /** Two predicates that agree on the elements count alike. */
  lemma {:induction false} CountSame<T>(s: seq<T>, p: T -> bool, q: T -> bool)
    requires forall x :: x in s ==> p(x) == q(x)
    ensures Count(s, p) == Count(s, q)
  {
    if s != [] {
      assert forall x :: x in s[1..] ==> x in s;
      CountSame(s[1..], p, q);
    }
  }

  /** A predicate implied by another counts at least as many elements. */
  lemma {:induction false} CountMonotone<T>(s: seq<T>, p: T -> bool, q: T -> bool)
    requires forall x :: x in s && p(x) ==> q(x)
    ensures Count(s, p) <= Count(s, q)
  {
    if s != [] {
      assert forall x :: x in s[1..] ==> x in s;
      CountMonotone(s[1..], p, q);
    }
  }

  /** `total > 0 ? Array.from({ length: total }, (_, index) => index) : []`. */
  function IdRange(total: int): (r: seq<nat>)
    ensures total <= 0 ==> r == []
    ensures total > 0 ==> |r| == total
    ensures forall i :: 0 <= i < |r| ==> r[i] == i
  {
    if total <= 0 then [] else seq(total, i requires 0 <= i => i as nat)
  }

  function Sum(s: seq<nat>): nat {
    if s == [] then 0 else s[0] + Sum(s[1..])
  }

  lemma {:induction false} SumAllZero(s: seq<nat>)
    ensures Sum(s) == 0 <==> forall i :: 0 <= i < |s| ==> s[i] == 0
  {
    if s != [] {
      SumAllZero(s[1..]);
      assert forall i :: 1 <= i < |s| ==> s[i] == s[1..][i - 1];
    }
  }

  lemma {:induction false} SumBoundsEach(s: seq<nat>, i: nat)
    requires i < |s|
    ensures s[i] <= Sum(s)
  {
    if i > 0 { SumBoundsEach(s[1..], i - 1); }
  }

  // ---------------------------------------------------------------------------
  // Stable descending sort (`sort((a, b) => b.votes - a.votes)`)
  // ---------------------------------------------------------------------------

  ghost predicate SortedDesc<T>(s: seq<T>, key: T -> int) {
    forall i, j :: 0 <= i < j < |s| ==> key(s[i]) >= key(s[j])
  }

  /** The entries of `s` whose key is `k`, in their order in `s`. */
  function KeyRun<T>(s: seq<T>, key: T -> int, k: int): seq<T> {
    Filter(s, HasKey(key, k))
  }

  function HasKey<T>(key: T -> int, k: int): T -> bool {
    x => key(x) == k
  }

  /** Places `x` after every trailing entry of `t` whose key is at least `x`'s. */
  function Insert<T>(t: seq<T>, x: T, key: T -> int): seq<T> {
    if t == [] then [x]
    else if key(t[|t| - 1]) >= key(x) then t + [x]
    else Insert(t[..|t| - 1], x, key) + [t[|t| - 1]]
  }

  /** Insertion sort, one element at a time from the left. */
  function SortDesc<T>(s: seq<T>, key: T -> int): seq<T> {
    if s == [] then [] else Insert(SortDesc(s[..|s| - 1], key), s[|s| - 1], key)
  }

  /**
   * `Insert` places `x` at `j` when the entry before `j` (if any) has a key at
   * least `x`'s and every entry from `j` on has a smaller one.
   */
  lemma {:induction false} InsertAt<T>(t: seq<T>, x: T, key: T -> int, j: nat)
    requires j <= |t| && (j == 0 || key(t[j - 1]) >= key(x))
    requires forall k :: j <= k < |t| ==> key(t[k]) < key(x)
    ensures Insert(t, x, key) == t[..j] + [x] + t[j..]
    decreases |t|
  {
    if j < |t| {
      var front := t[..|t| - 1];
      InsertAt(front, x, key, j);
      assert front[..j] == t[..j];
      assert t[j..] == front[j..] + [t[|t| - 1]];
    } else {
      assert t[..j] == t;
    }
  }

  /** Where `Insert` puts `x`: after the entries with keys at least its own. */
  lemma {:induction false} InsertShape<T>(t: seq<T>, x: T, key: T -> int) returns (p: nat)
    requires SortedDesc(t, key)
    ensures p <= |t| && Insert(t, x, key) == t[..p] + [x] + t[p..]
    ensures forall i :: 0 <= i < p ==> key(t[i]) >= key(x)
    ensures forall i :: p <= i < |t| ==> key(t[i]) < key(x)
  {
    if t == [] {
      p := 0;
    } else if key(t[|t| - 1]) >= key(x) {
      p := |t|;
      assert t[..p] == t;
    } else {
      var u := t[..|t| - 1];
      p := InsertShape(u, x, key);
      assert t[..p] == u[..p];
      assert t[p..] == u[p..] + [t[|t| - 1]];
    }
  }

  lemma {:induction false} InsertKeepsSorted<T>(t: seq<T>, x: T, key: T -> int)
    requires SortedDesc(t, key)
    ensures SortedDesc(Insert(t, x, key), key)
  {
    var p := InsertShape(t, x, key);
    var r := Insert(t, x, key);
    forall i, j | 0 <= i < j < |r| ensures key(r[i]) >= key(r[j]) {
      if j < p {
        assert r[i] == t[i] && r[j] == t[j];
      } else if j == p {
        assert r[j] == x;
      } else if i < p {
        assert r[i] == t[i] && r[j] == t[j - 1];
      } else if i == p {
        assert r[j] == t[j - 1];
      } else {
        assert r[i] == t[i - 1] && r[j] == t[j - 1];
      }
    }
  }

  lemma {:induction false} InsertAddsOne<T>(t: seq<T>, x: T, key: T -> int)
    requires SortedDesc(t, key)
    ensures |Insert(t, x, key)| == |t| + 1
    ensures multiset(Insert(t, x, key)) == multiset(t) + multiset{x}
  {
    var p := InsertShape(t, x, key);
    var a, b := t[..p], t[p..];
    assert t == a + b;
    calc {
      multiset(Insert(t, x, key));
      multiset(a + [x] + b);
      multiset(a + [x]) + multiset(b);
      multiset(a) + multiset([x]) + multiset(b);
      multiset(a) + multiset(b) + multiset{x};
      multiset(a + b) + multiset{x};
    }
  }

  lemma {:induction false} FilterNone<T>(b: seq<T>, f: T -> bool)
    requires forall i :: 0 <= i < |b| ==> !f(b[i])
    ensures Filter(b, f) == []
  {
    if b != [] {
      assert forall i :: 0 <= i < |b| - 1 ==> b[1..][i] == b[i + 1];
      FilterNone(b[1..], f);
    }
  }

  /** Dropping an entry the predicate rejects does not change the filtered sequence. */
  lemma {:induction false} FilterSkip<T>(a: seq<T>, x: T, b: seq<T>, f: T -> bool)
    requires !f(x)
    ensures Filter(a + [x] + b, f) == Filter(a + b, f)
  {
    FilterAppend(a + [x], b, f);
    FilterAppend(a, [x], f);
    FilterAppend(a, b, f);
    assert Filter([x], f) == [];
    assert Filter(a + [x], f) == Filter(a, f);
  }

  /** An accepted entry followed only by rejected ones ends the filtered sequence. */
  lemma {:induction false} FilterLastAccepted<T>(a: seq<T>, x: T, b: seq<T>, f: T -> bool)
    requires f(x)
    requires forall i :: 0 <= i < |b| ==> !f(b[i])
    ensures Filter(a + [x] + b, f) == Filter(a + b, f) + [x]
  {
    FilterNone(b, f);
    FilterAppend(a + [x], b, f);
    FilterAppend(a, [x], f);
    FilterAppend(a, b, f);
    assert Filter([x], f) == [x];
    assert Filter(a + b, f) == Filter(a, f);
    assert Filter(a + [x] + b, f) == Filter(a + [x], f);
  }

  lemma {:induction false} InsertExtendsRun<T>(t: seq<T>, x: T, key: T -> int, k: int)
    requires SortedDesc(t, key)
    ensures KeyRun(Insert(t, x, key), key, k) == KeyRun(t, key, k) + (if key(x) == k then [x] else [])
  {
    var p := InsertShape(t, x, key);
    var f := HasKey(key, k);
    var a, b := t[..p], t[p..];
    assert t == a + b;
    if key(x) == k {
      forall i | 0 <= i < |b| ensures !f(b[i]) {
        assert b[i] == t[p + i];
      }
      FilterLastAccepted(a, x, b, f);
    } else {
      FilterSkip(a, x, b, f);
      assert KeyRun(t, key, k) + [] == KeyRun(t, key, k);
    }
  }

  lemma {:induction false} SortDescSorted<T>(s: seq<T>, key: T -> int)
    ensures |SortDesc(s, key)| == |s|
    ensures SortedDesc(SortDesc(s, key), key)
    ensures multiset(SortDesc(s, key)) == multiset(s)
    ensures forall k :: KeyRun(SortDesc(s, key), key, k) == KeyRun(s, key, k)
  {
    if s != [] {
      var front, x := s[..|s| - 1], s[|s| - 1];
      assert s == front + [x];
      SortDescSorted(front, key);
      var t := SortDesc(front, key);
      InsertKeepsSorted(t, x, key);
      InsertAddsOne(t, x, key);
      forall k ensures KeyRun(SortDesc(s, key), key, k) == KeyRun(s, key, k) {
        InsertExtendsRun(t, x, key, k);
        FilterAppend(front, [x], HasKey(key, k));
      }
    }
  }

  /** The subsequence chosen by `Filter` starts at the first match. */
  lemma {:induction false} FilterHead<T>(s: seq<T>, p: T -> bool, i: nat)
    requires i < |s| && p(s[i])
    requires forall j :: 0 <= j < i ==> !p(s[j])
    ensures Filter(s, p) != [] && Filter(s, p)[0] == s[i]
  {
    if i > 0 {
      FilterHead(s[1..], p, i - 1);
    }
  }

  /** `s[m]` has the largest key, and no earlier entry reaches it. */
  ghost predicate IsFirstMaximum<T>(s: seq<T>, key: T -> int, m: int) {
    && 0 <= m < |s|
    && (forall j :: 0 <= j < |s| ==> key(s[j]) <= key(s[m]))
    && (forall j :: 0 <= j < m ==> key(s[j]) < key(s[m]))
  }

  lemma {:induction false} FirstMaximumExists<T>(s: seq<T>, key: T -> int) returns (m: nat)
    requires s != []
    ensures IsFirstMaximum(s, key, m)
  {
    if |s| == 1 {
      m := 0;
    } else {
      var front := s[..|s| - 1];
      var f := FirstMaximumExists(front, key);
      assert forall j :: 0 <= j < |front| ==> front[j] == s[j];
      if key(s[|s| - 1]) > key(s[f]) {
        m := |s| - 1;
      } else {
        m := f;
      }
    }
  }

  /**
   * The first entry of the sorted sequence is the first entry of the original
   * order that has the largest key: a stable descending sort puts the earliest
   * maximum in front.
   */
  lemma {:induction false} FirstSortedIsFirstMaximum<T>(s: seq<T>, key: T -> int, m: nat)
    requires IsFirstMaximum(s, key, m)
    ensures |SortDesc(s, key)| == |s| && SortDesc(s, key)[0] == s[m]
  {
    SortDescSorted(s, key);
    var r := SortDesc(s, key);
    var k := key(s[m]);
    var f := HasKey(key, k);
    assert s[m] in multiset(r);
    var q :| 0 <= q < |r| && r[q] == s[m];
    assert r[0] in multiset(s);
    var z :| 0 <= z < |s| && s[z] == r[0];
    assert key(r[0]) == k;
    FilterHead(r, f, 0);
    FilterHead(s, f, m);
    assert KeyRun(r, key, k) == KeyRun(s, key, k);
  }

  // ---------------------------------------------------------------------------
  // String.prototype.slice with the arguments the pages use
  // ---------------------------------------------------------------------------

  /** `s.slice(0, n)` for `n >= 0`. */
  function Take<T>(s: seq<T>, n: nat): (r: seq<T>)
    ensures |r| == if n <= |s| then n else |s|
    ensures r == s[..|r|]
  {
    if n <= |s| then s[..n] else s
  }

  /**
   * `s.slice(-n)` for `n >= 0`. JavaScript reads `-0` as `0`, so `n == 0`
   * keeps the whole string rather than giving the empty one.
   */
  function SliceFromEnd<T>(s: seq<T>, n: nat): (r: seq<T>)
    ensures n == 0 || n >= |s| ==> r == s
    ensures 0 < n <= |s| ==> |r| == n
    ensures r == s[|s| - |r|..]
  {
    if n == 0 || n >= |s| then s else s[|s| - n..]
  }

  // ---------------------------------------------------------------------------
  // map, duplicates, findIndex, `a || b`
  // ---------------------------------------------------------------------------

  function Map<A, B>(s: seq<A>, f: A -> B): (r: seq<B>)
    ensures |r| == |s|
    ensures forall i :: 0 <= i < |s| ==> r[i] == f(s[i])
  {
    seq(|s|, i requires 0 <= i < |s| => f(s[i]))
  }

  predicate HasDuplicates<T(==)>(s: seq<T>) {
    exists i, j :: 0 <= i < j < |s| && s[i] == s[j]
  }

  function Elements<T(==)>(s: seq<T>): set<T> {
    set x | x in s
  }

  lemma {:induction false} ElementsBound<T>(s: seq<T>)
    ensures |Elements(s)| <= |s|
  {
    if s != [] {
      ElementsBound(s[1..]);
      assert Elements(s) == {s[0]} + Elements(s[1..]);
    }
  }

  /** `new Set(s).size === s.length` holds exactly when `s` has no repeated entry. */
  lemma {:induction false} SetSizeIffDistinct<T>(s: seq<T>)
    ensures |Elements(s)| == |s| <==> !HasDuplicates(s)
  {
    if s != [] {
      var rest := s[1..];
      SetSizeIffDistinct(rest);
      ElementsBound(rest);
      assert Elements(s) == {s[0]} + Elements(rest);
      if s[0] in rest {
        var j :| 0 <= j < |rest| && rest[j] == s[0];
        assert s[0] == s[j + 1];
        assert Elements(s) == Elements(rest);
      } else {
        assert Elements(s) == Elements(rest) + {s[0]};
        if HasDuplicates(s) {
          var i, j :| 0 <= i < j < |s| && s[i] == s[j];
          assert rest[i - 1] == rest[j - 1];
        }
        if HasDuplicates(rest) {
          var i, j :| 0 <= i < j < |rest| && rest[i] == rest[j];
          assert s[i + 1] == s[j + 1];
        }
      }
    }
  }

  /** `s.findIndex(y => y === x)`: the first position of `x`, or -1. */
  function FindIndex<T(==)>(s: seq<T>, x: T): (r: int)
    ensures -1 <= r < |s|
    ensures r == -1 <==> x !in s
    ensures r >= 0 ==> s[r] == x && forall j :: 0 <= j < r ==> s[j] != x
  {
    if s == [] then -1
    else if s[0] == x then 0
    else var r := FindIndex(s[1..], x); if r == -1 then -1 else r + 1
  }

  /** Some entry is not at the first position of its value exactly when a value repeats. */
  lemma FindIndexRevealsDuplicates<T>(s: seq<T>)
    ensures (exists i :: 0 <= i < |s| && FindIndex(s, s[i]) != i) <==> HasDuplicates(s)
  {
    if HasDuplicates(s) {
      var i, j :| 0 <= i < j < |s| && s[i] == s[j];
      assert FindIndex(s, s[j]) <= i;
    }
    if exists i :: 0 <= i < |s| && FindIndex(s, s[i]) != i {
      var i :| 0 <= i < |s| && FindIndex(s, s[i]) != i;
      var f := FindIndex(s, s[i]);
      assert 0 <= f < i && s[f] == s[i];
    }
  }

  /** `a || b` on two optional values: the first one that is present. */
  function FirstPresent<T>(a: Option<T>, b: Option<T>): (r: Option<T>)
    ensures r.Some? <==> a.Some? || b.Some?
    ensures a.Some? ==> r == a
    ensures a.None? ==> r == b
  {
    if a.Some? then a else b
  }

  // ---------------------------------------------------------------------------
  // Integer division
  // ---------------------------------------------------------------------------

  lemma MulAtLeast(c: int, k: int)
    requires c > 0 && k >= 1
    ensures c * k >= c
  {
    assert c * k == c * (k - 1) + c;
  }

  /** Quotient and remainder are determined by any decomposition `c * a + b` with `0 <= b < c`. */
  lemma DivModUnique(x: int, c: int, a: int, b: int)
    requires c > 0 && x == c * a + b && 0 <= b < c
    ensures x % c == b && x / c == a
  {
    var q, r := x / c, x % c;
    var k := a - q;
    assert x == c * q + r;
    assert c * a - c * q == c * k;
    assert c * k == r - b;
    if k > 0 { MulAtLeast(c, k); }
    if k < 0 { MulAtLeast(c, -k); }
  }

  // ---------------------------------------------------------------------------
  // Real division
  // ---------------------------------------------------------------------------

  lemma CastMul(a: int, b: int)
    ensures (a * b) as real == a as real * b as real
  {
  }

  lemma DivideBelow(a: real, b: real, t: real)
    requires t > 0.0 && a * t <= b
    ensures a <= b / t
  {
  }

  lemma DivideAbove(a: real, b: real, t: real)
    requires t > 0.0 && b < a * t
    ensures b / t < a
  {
  }
}
