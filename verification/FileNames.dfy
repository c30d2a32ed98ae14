/** The names of a segment's files, and how a directory listing is turned back
    into base offsets. */
module FileNames {
  import opened Bytes

  const STORE_SUFFIX: string := ".store"
  const INDEX_SUFFIX: string := ".index"

  // ----------------------------------------------------------- decimal names

  predicate IsDigit(c: char) {
    '0' <= c <= '9'
  }

  function Digit(d: nat): (c: char)
    requires d < 10
    ensures IsDigit(c) && DigitValue(c) == d
  {
    '0' + d as char
  }

  function DigitValue(c: char): nat
    requires IsDigit(c)
  {
    c as nat - '0' as nat
  }

  function Decimal(n: nat): (s: string)
    ensures s != [] && forall c | c in s :: IsDigit(c)
  {
    if n < 10 then [Digit(n)] else Decimal(n / 10) + [Digit(n % 10)]
  }

  // The value `ParseUint` has accumulated after reading a prefix of the digits.
  datatype Parse = Reading(n: Uint64) | SyntaxError | RangeError

  function ParseDigit(p: Parse, c: char): Parse {
    if !p.Reading? then p
    else if !IsDigit(c) then SyntaxError
    else if 10 * p.n + DigitValue(c) >= TWO_64 then RangeError
    else Reading(10 * p.n + DigitValue(c))
  }

  function ParseDigits(s: string): Parse {
    if s == [] then Reading(0) else ParseDigit(ParseDigits(s[..|s| - 1]), s[|s| - 1])
  }

  /** strconv.ParseUint with its error thrown away: zero for anything that is not
      a number, the largest value for a number that is too large. */
  function ParseUint(s: string): Uint64 {
    if s == [] then 0
    else
      match ParseDigits(s)
      case Reading(n) => n
      case SyntaxError => 0
      case RangeError => TWO_64 - 1
  }

  lemma {:induction false} ParseDecimal(n: Uint64)
    ensures ParseDigits(Decimal(n)) == Reading(n)
    ensures ParseUint(Decimal(n)) == n
  {
    var s := Decimal(n);
    if n < 10 {
      assert s[..0] == [];
      assert ParseDigits(s) == ParseDigit(Reading(0), Digit(n));
    } else {
      ParseDecimal(n / 10);
      assert s[..|s| - 1] == Decimal(n / 10);
    }
  }

  /** The position of the last dot of a name, or its length: where path.Ext starts. */
  function ExtStart(s: string): (i: nat)
    ensures i <= |s|
  {
    if s == [] then 0
    else if s[|s| - 1] == '.' then |s| - 1
    else
      var i := ExtStart(s[..|s| - 1]);
      if i == |s| - 1 then |s| else i
  }

  function BaseOf(name: string): Uint64 {
    ParseUint(name[..ExtStart(name)])
  }

  lemma {:induction false} ExtStartAfterDot(a: string, b: string)
    requires '.' !in b
    ensures ExtStart(a + "." + b) == |a|
  {
    var s := a + "." + b;
    if b != [] {
      assert s[..|s| - 1] == a + "." + b[..|b| - 1];
      ExtStartAfterDot(a, b[..|b| - 1]);
    }
  }

  function StoreName(base: nat): string {
    Decimal(base) + STORE_SUFFIX
  }

  function IndexName(base: nat): string {
    Decimal(base) + INDEX_SUFFIX
  }

  /** The two files of the segment at `base`. */
  ghost function NamesAt(base: nat): set<string> {
    {StoreName(base), IndexName(base)}
  }

  /** The names, spelled out: the decimal digits of the base, most significant first
      and without leading zeros, then ".store" or ".index". */
  lemma NamesSpelledOut(base: nat)
    ensures var d := Decimal(base);
            StoreName(base) == d + ".store" && IndexName(base) == d + ".index" &&
            d[|d| - 1] == "0123456789"[base % 10] &&
            (base < 10 ==> |d| == 1) &&
            (base >= 10 ==> d[..|d| - 1] == Decimal(base / 10))
  {
    SpelledDigit(base % 10);
    assert STORE_SUFFIX == ".store" && INDEX_SUFFIX == ".index";
  }

  lemma SpelledDigit(d: nat)
    requires d < 10
    ensures Digit(d) == "0123456789"[d]
  {
  }

  lemma NameInstances()
    ensures StoreName(0) == "0.store" && IndexName(16) == "16.index"
  {
    hide Digit;
    NamesSpelledOut(0);
    NamesSpelledOut(16);
    SpelledDigit(0);
    SpelledDigit(1);
    SpelledDigit(6);
    assert Decimal(16) == Decimal(1) + [Digit(6)];
  }

  /** A name that does not start with a number counts as base 0, and a number of 2^64
      or more as the largest base. */
  lemma StrayNumbers(s: string, n: nat)
    requires s != [] && !IsDigit(s[0])
    ensures ParseUint(s) == 0
    ensures n >= TWO_64 ==> ParseUint(Decimal(n)) == TWO_64 - 1
  {
    NotANumber(s);
    if n >= TWO_64 {
      TooLarge(n);
    }
  }

  lemma {:induction false} NotANumber(s: string)
    requires s != [] && !IsDigit(s[0])
    ensures ParseDigits(s) == SyntaxError
  {
    if |s| > 1 {
      NotANumber(s[..|s| - 1]);
    } else {
      assert ParseDigits(s[..0]) == Reading(0);
    }
  }

  lemma {:induction false} TooLarge(n: nat)
    requires n >= TWO_64
    ensures ParseDigits(Decimal(n)) == RangeError
  {
    var s := Decimal(n);
    assert s[..|s| - 1] == Decimal(n / 10) && s[|s| - 1] == Digit(n % 10);
    if n / 10 >= TWO_64 {
      TooLarge(n / 10);
    } else {
      ParseDecimal(n / 10);
    }
  }

  /** The base offset can be read off either file name. */
  lemma BaseOfNames(base: Uint64)
    ensures BaseOf(StoreName(base)) == base
    ensures BaseOf(IndexName(base)) == base
    ensures StoreName(base) != IndexName(base)
  {
    hide Decimal, ParseUint, ExtStart;
    var d := Decimal(base);
    ParseDecimal(base);
    assert StoreName(base) == d + "." + "store" && IndexName(base) == d + "." + "index";
    ExtStartAfterDot(d, "store");
    ExtStartAfterDot(d, "index");
    assert StoreName(base)[|d| + 1] == 's' && IndexName(base)[|d| + 1] == 'i';
  }

  /** Different segments never share a file. */
  lemma NamesDistinct(b: Uint64, c: Uint64)
    ensures StoreName(b) != IndexName(c)
    ensures b != c ==> StoreName(b) != StoreName(c) && IndexName(b) != IndexName(c)
  {
    hide StoreName, IndexName, BaseOf;
    BaseOfNames(b);
    BaseOfNames(c);
  }

  // ------------------------------------------------------------------ sorting

  ghost predicate Sorted(s: seq<nat>) {
    forall i, j | 0 <= i < j < |s| :: s[i] <= s[j]
  }

  function Insert(x: nat, s: seq<nat>): (r: seq<nat>) {
    if s == [] || x <= s[0] then [x] + s else [s[0]] + Insert(x, s[1..])
  }

  /** sort.Slice with the less-than order. */
  function Sort(s: seq<nat>): (r: seq<nat>) {
    if s == [] then [] else Insert(s[0], Sort(s[1..]))
  }

  // ------------------------------------------------------------ permutations

  lemma HeadOut<T>(s: seq<T>)
    requires s != []
    ensures multiset(s) == multiset{s[0]} + multiset(s[1..])
  {
    assert s == [s[0]] + s[1..];
  }

  lemma TakenOut<T>(s: seq<T>, i: nat)
    requires i < |s|
    ensures multiset(s) == multiset{s[i]} + multiset(s[..i] + s[i + 1..])
  {
    assert s == s[..i] + [s[i]] + s[i + 1..];
  }

  lemma LastOut<T>(s: seq<T>)
    requires s != []
    ensures multiset(s) == multiset{s[|s| - 1]} + multiset(s[..|s| - 1])
  {
    assert s == s[..|s| - 1] + [s[|s| - 1]];
  }

  lemma Cancel<T>(x: multiset<T>, a: multiset<T>, b: multiset<T>)
    requires x + a == x + b
    ensures a == b
  {
    assert a == (x + a) - x;
    assert b == (x + b) - x;
  }

  lemma PositionIn<T>(x: T, s: seq<T>, t: multiset<T>) returns (i: nat)
    requires x in t && multiset(s) == t
    ensures i < |s| && s[i] == x
  {
    assert x in s;
    i :| 0 <= i < |s| && s[i] == x;
  }

  lemma SameLength<T>(a: seq<T>, b: seq<T>)
    requires multiset(a) == multiset(b)
    ensures |a| == |b|
  {
    assert |a| == |multiset(a)| == |multiset(b)| == |b|;
  }

  lemma SortedTail(s: seq<nat>)
    requires s != [] && Sorted(s)
    ensures Sorted(s[1..])
  {
  }

  lemma SortedPrepend(x: nat, s: seq<nat>)
    requires Sorted(s) && forall k | 0 <= k < |s| :: x <= s[k]
    ensures Sorted([x] + s)
  {
  }

  lemma {:induction false} InsertSorted(x: nat, s: seq<nat>)
    requires Sorted(s)
    ensures Sorted(Insert(x, s)) && multiset(Insert(x, s)) == multiset{x} + multiset(s)
    ensures forall k | 0 <= k < |Insert(x, s)| :: x <= Insert(x, s)[k] || (s != [] && s[0] <= Insert(x, s)[k])
  {
    hide Sorted;
    if s == [] || x <= s[0] {
      assert multiset([x] + s) == multiset{x} + multiset(s);
      SortedHead(s);
      SortedPrepend(x, s);
    } else {
      SortedTail(s);
      SortedHead(s);
      InsertSorted(x, s[1..]);
      var t := Insert(x, s[1..]);
      SortedPrepend(s[0], t);
      HeadOut(s);
      HeadOut([s[0]] + t);
      assert ([s[0]] + t)[1..] == t;
    }
  }

  lemma SortedHead(s: seq<nat>)
    requires Sorted(s)
    ensures forall k | 0 <= k < |s| :: s[0] <= s[k]
  {
  }

  lemma {:induction false} SortSorts(s: seq<nat>)
    ensures Sorted(Sort(s)) && multiset(Sort(s)) == multiset(s)
  {
    hide Sorted, Insert;
    if s == [] {
      SortedEmpty();
    } else {
      SortSorts(s[1..]);
      InsertSorted(s[0], Sort(s[1..]));
      HeadOut(s);
    }
  }

  lemma SortedEmpty()
    ensures Sorted([])
  {
  }

  lemma {:induction false} SortedUnique(a: seq<nat>, b: seq<nat>)
    requires Sorted(a) && Sorted(b) && multiset(a) == multiset(b)
    ensures a == b
  {
    hide Sorted;
    SameLength(a, b);
    if a != [] {
      SortedHead(a);
      SortedHead(b);
      HeadOut(a);
      HeadOut(b);
      var i := PositionIn(a[0], b, multiset(a));
      var j := PositionIn(b[0], a, multiset(b));
      Cancel(multiset{a[0]}, multiset(a[1..]), multiset(b[1..]));
      SortedTail(a);
      SortedTail(b);
      SortedUnique(a[1..], b[1..]);
      assert a == [a[0]] + a[1..] && b == [b[0]] + b[1..];
    }
  }

  // ------------------------------------- a listing that names each base twice

  ghost predicate Ascending(bases: seq<nat>) {
    forall i, j | 0 <= i < j < |bases| :: bases[i] < bases[j]
  }

  function Doubled(bases: seq<nat>): seq<nat> {
    if bases == [] then [] else Doubled(bases[..|bases| - 1]) + [bases[|bases| - 1], bases[|bases| - 1]]
  }

  lemma {:induction false} DoubledAt(bases: seq<nat>)
    ensures |Doubled(bases)| == 2 * |bases|
    ensures forall k | 0 <= k < 2 * |bases| :: Doubled(bases)[k] == bases[k / 2]
  {
    if bases != [] {
      DoubledAt(bases[..|bases| - 1]);
    }
  }

  lemma DoubledSorted(bases: seq<nat>)
    requires Ascending(bases)
    ensures Sorted(Doubled(bases))
  {
    hide Doubled;
    DoubledAt(bases);
    var d := Doubled(bases);
    forall i, j | 0 <= i < j < |d|
      ensures d[i] <= d[j]
    {
      assert d[i] == bases[i / 2] && d[j] == bases[j / 2];
      assert i / 2 < j / 2 ==> bases[i / 2] < bases[j / 2];
    }
  }

  /** In a sorted list in which every base occurs twice, the even positions hold
      the bases, each once and in ascending order. */
  lemma EvenPositions(bases: seq<nat>, listed: seq<nat>)
    requires Ascending(bases) && multiset(listed) == multiset(Doubled(bases))
    ensures |Sort(listed)| == 2 * |bases|
    ensures forall k | 0 <= k < |bases| :: Sort(listed)[2 * k] == bases[k]
  {
    hide Sort, Doubled, Sorted, Ascending;
    SortSorts(listed);
    DoubledAt(bases);
    var d := Doubled(bases);
    DoubledSorted(bases);
    SortedUnique(Sort(listed), d);
    forall k | 0 <= k < |bases|
      ensures d[2 * k] == bases[k]
    {
      assert d[2 * k] == bases[(2 * k) / 2];
    }
  }

  /** The names of all segment files. */
  function NamesOf(bases: seq<nat>): seq<string> {
    if bases == [] then []
    else NamesOf(bases[..|bases| - 1]) + [IndexName(bases[|bases| - 1]), StoreName(bases[|bases| - 1])]
  }

  function BasesOf(names: seq<string>): (bases: seq<nat>)
    ensures |bases| == |names|
  {
    if names == [] then [] else BasesOf(names[..|names| - 1]) + [BaseOf(names[|names| - 1])]
  }

  lemma {:induction false} BasesOfNamesOf(bases: seq<nat>)
    requires forall k | 0 <= k < |bases| :: bases[k] < TWO_64
    ensures BasesOf(NamesOf(bases)) == Doubled(bases)
  {
    hide BaseOf, StoreName, IndexName;
    if bases != [] {
      var n := |bases| - 1;
      BasesOfNamesOf(bases[..n]);
      BaseOfNames(bases[n]);
      var names := NamesOf(bases);
      var inner := names[..|names| - 1];
      assert inner == NamesOf(bases[..n]) + [IndexName(bases[n])];
      assert inner[..|inner| - 1] == NamesOf(bases[..n]);
      assert BasesOf(inner) == Doubled(bases[..n]) + [bases[n]];
      assert Doubled(bases) == Doubled(bases[..n]) + [bases[n]] + [bases[n]];
    }
  }

  lemma {:induction false} BasesOfConcat(a: seq<string>, b: seq<string>)
    ensures BasesOf(a + b) == BasesOf(a) + BasesOf(b)
  {
    hide BaseOf;
    if b == [] {
      assert a + b == a;
    } else {
      assert (a + b)[..|a + b| - 1] == a + b[..|b| - 1];
      BasesOfConcat(a, b[..|b| - 1]);
    }
  }

  /** The order in which a directory is listed does not matter. */
  lemma {:induction false} BasesOfPermuted(a: seq<string>, b: seq<string>)
    requires multiset(a) == multiset(b)
    ensures multiset(BasesOf(a)) == multiset(BasesOf(b))
    decreases |a|
  {
    hide BaseOf, BasesOf;
    SameLength(a, b);
    if a == [] {
      assert b == [];
    } else {
      var n := |a| - 1;
      LastOut(a);
      var i := PositionIn(a[n], b, multiset(a));
      var rest := b[..i] + b[i + 1..];
      TakenOut(b, i);
      Cancel(multiset{a[n]}, multiset(a[..n]), multiset(rest));
      BasesOfPermuted(a[..n], rest);
      BasesOfTakenOut(b[..i], b[i], b[i + 1..]);
      BasesOfTakenOut(a[..n], a[n], []);
      assert a == a[..n] + [a[n]] + [] && a[..n] + [] == a[..n];
      assert b == b[..i] + [b[i]] + b[i + 1..];
    }
  }

  lemma BasesOfSplit(a: seq<string>, x: string, c: seq<string>)
    ensures BasesOf(a + [x] + c) == BasesOf(a) + [BaseOf(x)] + BasesOf(c)
  {
    hide BaseOf, BasesOf;
    BasesOfConcat(a + [x], c);
    BasesOfConcat(a, [x]);
    BasesOfOne(x);
  }

  lemma BasesOfTakenOut(a: seq<string>, x: string, c: seq<string>)
    ensures multiset(BasesOf(a + [x] + c)) == multiset{BaseOf(x)} + multiset(BasesOf(a + c))
  {
    hide BaseOf, BasesOf;
    BasesOfConcat(a, c);
    BasesOfSplit(a, x, c);
    Regroup(BasesOf(a), BaseOf(x), BasesOf(c));
  }

  lemma Regroup(a: seq<nat>, x: nat, b: seq<nat>)
    ensures multiset(a + [x] + b) == multiset{x} + multiset(a + b)
  {
  }

  lemma BasesOfOne(name: string)
    ensures BasesOf([name]) == [BaseOf(name)]
  {
    hide BaseOf;
    assert [name][..0] == [];
  }

  /** However a directory with exactly the files of `bases` is listed, the sorted
      base offsets name the segments at the even positions. */
  lemma ListingRecoversBases(bases: seq<nat>, names: seq<string>)
    requires Ascending(bases) && (forall k | 0 <= k < |bases| :: bases[k] < TWO_64)
    requires multiset(names) == multiset(NamesOf(bases))
    ensures |Sort(BasesOf(names))| == 2 * |bases|
    ensures forall k | 0 <= k < |bases| :: Sort(BasesOf(names))[2 * k] == bases[k]
  {
    hide Sort, BasesOf, NamesOf, Doubled, Ascending;
    BasesOfPermuted(names, NamesOf(bases));
    BasesOfNamesOf(bases);
    EvenPositions(bases, BasesOf(names));
  }
}
