/** The list, nested-data and price-string helpers of `general_utils.py`. */
module GeneralUtils {
  import opened Wrappers
  import opened Strings

  // ---------------------------------------------------------------------
  // flatten_list_of_lists
  // ---------------------------------------------------------------------

  /** The sum of the inner lengths. */
  function TotalLength<T>(lists: seq<seq<T>>): nat {
    if |lists| == 0 then 0 else |lists[0]| + TotalLength(lists[1..])
  }

  /** `list(itertools.chain(*lists))`: the inner lists one after the other. */
  function Flatten<T>(lists: seq<seq<T>>): (r: seq<T>)
    ensures |r| == TotalLength(lists)
  {
    if |lists| == 0 then [] else lists[0] + Flatten(lists[1..])
  }

  /** Flattening distributes over concatenation of the outer list. */
  lemma {:induction false} FlattenAppend<T>(a: seq<seq<T>>, b: seq<seq<T>>)
    ensures Flatten(a + b) == Flatten(a) + Flatten(b)
    decreases |a|
  {
    if |a| > 0 {
      assert (a + b)[1..] == a[1..] + b;
      FlattenAppend(a[1..], b);
    } else {
      assert a + b == b;
    }
  }

  /** Every inner list appears whole, after everything that precedes it and
      before everything that follows it. */
  lemma FlattenAt<T>(lists: seq<seq<T>>, i: nat)
    requires i < |lists|
    ensures Flatten(lists) == Flatten(lists[..i]) + lists[i] + Flatten(lists[i + 1..])
  {
    assert lists == lists[..i] + lists[i..];
    FlattenAppend(lists[..i], lists[i..]);
    assert lists[i..][1..] == lists[i + 1..];
  }

  // ---------------------------------------------------------------------
  // which_is_true
  // ---------------------------------------------------------------------

  /** `[i for i, x in enumerate(xs) if x]`, with each element's truth value
      already taken: exactly the indices of the true elements, in increasing
      order. */
  function WhichIsTrue(xs: seq<bool>): (r: seq<nat>)
    ensures forall j :: 0 <= j < |r| ==> r[j] < |xs| && xs[r[j]]
    ensures forall i :: 0 <= i < |xs| && xs[i] ==> i in r
    ensures forall j, k :: 0 <= j < k < |r| ==> r[j] < r[k]
  {
    if |xs| == 0 then []
    else
      var n := |xs| - 1;
      WhichIsTrue(xs[..n]) + (if xs[n] then [n] else [])
  }

  /** There are as many indices as true elements. */
  lemma {:induction false} WhichIsTrueCount(xs: seq<bool>)
    ensures |WhichIsTrue(xs)| == multiset(xs)[true]
  {
    if |xs| > 0 {
      var n := |xs| - 1;
      WhichIsTrueCount(xs[..n]);
      assert xs == xs[..n] + [xs[n]];
    }
  }

  // ---------------------------------------------------------------------
  // find_all_paths_leading_to_key
  // ---------------------------------------------------------------------

  /** Nested data: a dict (its items in iteration order), a list, or anything
      else. */
  datatype Json = Object(entries: seq<(string, Json)>) | Array(items: seq<Json>) | Scalar

  /** One step of a path: a dict key or a list index. */
  datatype Step = Key(key: string) | Index(index: nat)

  /** `p` is `prefix` followed by at least one more step. */
  predicate Extends(p: seq<Step>, prefix: seq<Step>) {
    |p| > |prefix| && p[..|prefix|] == prefix
  }

  /** The paths the search reports below `d`, each starting with `prefix`. */
  function PathsTo(d: Json, target: string, prefix: seq<Step>): (r: seq<seq<Step>>)
    ensures forall p :: p in r ==> Extends(p, prefix)
    decreases d, 1
  {
    match d
    case Object(entries) => EntryPaths(d, target, prefix, |entries|)
    case Array(items) => ItemPaths(d, target, prefix, |items|)
    case Scalar => []
  }

  /** The paths reported for the first `n` items of dict `d`: for each key, its
      own path when it is `target`, then the paths found in its value. */
  function EntryPaths(d: Json, target: string, prefix: seq<Step>, n: nat): (r: seq<seq<Step>>)
    requires d.Object? && n <= |d.entries|
    ensures forall p :: p in r ==> Extends(p, prefix)
    decreases d, 0, n
  {
    if n == 0 then []
    else
      var key := d.entries[n - 1].0;
      var path := prefix + [Key(key)];
      EntryPaths(d, target, prefix, n - 1) + (if key == target then [path] else [])
        + PathsTo(d.entries[n - 1].1, target, path)
  }

  /** The paths found in the first `n` elements of list `d`. */
  function ItemPaths(d: Json, target: string, prefix: seq<Step>, n: nat): (r: seq<seq<Step>>)
    requires d.Array? && n <= |d.items|
    ensures forall p :: p in r ==> Extends(p, prefix)
    decreases d, 0, n
  {
    if n == 0 then []
    else ItemPaths(d, target, prefix, n - 1) + PathsTo(d.items[n - 1], target, prefix + [Index(n - 1)])
  }

  /** `find_all_paths_leading_to_key(d, target, prefix)`. */
  method FindAllPaths(d: Json, target: string, prefix: seq<Step>) returns (paths: seq<seq<Step>>)
    ensures paths == PathsTo(d, target, prefix)
    decreases d
  {
    paths := [];
    match d
    case Object(entries) =>
      var i := 0;
      while i < |entries|
        invariant i <= |entries|
        invariant paths == EntryPaths(d, target, prefix, i)
      {
        var key := entries[i].0;
        var path := prefix + [Key(key)];
        if key == target {
          paths := paths + [path];
        }
        var inner := FindAllPaths(entries[i].1, target, path);
        paths := paths + inner;
        i := i + 1;
      }
    case Array(items) =>
      var i := 0;
      while i < |items|
        invariant i <= |items|
        invariant paths == ItemPaths(d, target, prefix, i)
      {
        var inner := FindAllPaths(items[i], target, prefix + [Index(i)]);
        paths := paths + inner;
        i := i + 1;
      }
    case Scalar =>
  }

  /** `path` can be followed from `d`: each key step names an item of the dict
      reached so far, each index step an element of the list reached so far. */
  predicate ValidPath(d: Json, path: seq<Step>)
    decreases |path|
  {
    |path| == 0 ||
    match path[0]
    case Key(k) =>
      d.Object? && exists i :: 0 <= i < |d.entries| && d.entries[i].0 == k && ValidPath(d.entries[i].1, path[1..])
    case Index(i) =>
      d.Array? && i < |d.items| && ValidPath(d.items[i], path[1..])
  }

  /** `path` leads from `d` to an item whose key is `target`. */
  predicate LeadsTo(d: Json, target: string, path: seq<Step>) {
    ValidPath(d, path) && |path| > 0 && path[|path| - 1] == Key(target)
  }

  /** `p` is `prefix` followed by a path leading from `d` to `target`. */
  predicate Reported(d: Json, target: string, prefix: seq<Step>, p: seq<Step>) {
    |p| > |prefix| && p[..|prefix|] == prefix && LeadsTo(d, target, p[|prefix|..])
  }

  /** Every reported path is `prefix` followed by a path leading to `target`. */
  lemma {:induction false} PathsSound(d: Json, target: string, prefix: seq<Step>)
    ensures forall p :: p in PathsTo(d, target, prefix) ==> Reported(d, target, prefix, p)
    decreases d, 1
  {
    match d
    case Object(entries) => EntryPathsSound(d, target, prefix, |entries|);
    case Array(items) => ItemPathsSound(d, target, prefix, |items|);
    case Scalar =>
  }

  lemma {:induction false} EntryPathsSound(d: Json, target: string, prefix: seq<Step>, n: nat)
    requires d.Object? && n <= |d.entries|
    ensures forall p :: p in EntryPaths(d, target, prefix, n) ==> Reported(d, target, prefix, p)
    decreases d, 0, n
  {
    if n > 0 {
      EntryPathsSound(d, target, prefix, n - 1);
      var (key, value) := d.entries[n - 1];
      var path := prefix + [Key(key)];
      PathsSound(value, target, path);
      forall p | p in EntryPaths(d, target, prefix, n)
        ensures Reported(d, target, prefix, p)
      {
        if p !in EntryPaths(d, target, prefix, n - 1) {
          if key == target && p == path {
            MatchReported(d, target, prefix, n - 1);
          } else {
            assert p in PathsTo(value, target, path);
            EntryReported(d, target, prefix, n - 1, p);
          }
        }
      }
    }
  }

  /** The path to a dict item whose key is `target` is reported. */
  lemma MatchReported(d: Json, target: string, prefix: seq<Step>, i: nat)
    requires d.Object? && i < |d.entries| && d.entries[i].0 == target
    ensures Reported(d, target, prefix, prefix + [Key(target)])
  {
    var p := prefix + [Key(target)];
    assert p[..|prefix|] == prefix;
    assert p[|prefix|..] == [Key(target)];
    assert ValidPath(d.entries[i].1, []);
  }

  /** A path reported below a dict item is reported below the dict. */
  lemma EntryReported(d: Json, target: string, prefix: seq<Step>, i: nat, p: seq<Step>)
    requires d.Object? && i < |d.entries|
    requires Reported(d.entries[i].1, target, prefix + [Key(d.entries[i].0)], p)
    ensures Reported(d, target, prefix, p)
  {
    var path := prefix + [Key(d.entries[i].0)];
    var rest := p[|path|..];
    assert p[..|path|][..|prefix|] == p[..|prefix|];
    assert p[|prefix|..] == [Key(d.entries[i].0)] + rest;
    assert p[|prefix|..][1..] == rest;
  }

  /** A path reported below a list element is reported below the list. */
  lemma ItemReported(d: Json, target: string, prefix: seq<Step>, i: nat, p: seq<Step>)
    requires d.Array? && i < |d.items|
    requires Reported(d.items[i], target, prefix + [Index(i)], p)
    ensures Reported(d, target, prefix, p)
  {
    var path := prefix + [Index(i)];
    var rest := p[|path|..];
    assert p[..|path|][..|prefix|] == p[..|prefix|];
    assert p[|prefix|..] == [Index(i)] + rest;
    assert p[|prefix|..][1..] == rest;
  }

  lemma {:induction false} ItemPathsSound(d: Json, target: string, prefix: seq<Step>, n: nat)
    requires d.Array? && n <= |d.items|
    ensures forall p :: p in ItemPaths(d, target, prefix, n) ==> Reported(d, target, prefix, p)
    decreases d, 0, n
  {
    if n > 0 {
      ItemPathsSound(d, target, prefix, n - 1);
      var path := prefix + [Index(n - 1)];
      PathsSound(d.items[n - 1], target, path);
      forall p | p in ItemPaths(d, target, prefix, n)
        ensures Reported(d, target, prefix, p)
      {
        if p !in ItemPaths(d, target, prefix, n - 1) {
          ItemReported(d, target, prefix, n - 1, p);
        }
      }
    }
  }

  /** The paths of fewer dict items come first. */
  lemma {:induction false} EntryPathsGrow(d: Json, target: string, prefix: seq<Step>, m: nat, n: nat)
    requires d.Object? && m <= n <= |d.entries|
    ensures EntryPaths(d, target, prefix, m) <= EntryPaths(d, target, prefix, n)
    decreases n
  {
    if m < n {
      EntryPathsGrow(d, target, prefix, m, n - 1);
    }
  }

  /** The paths of fewer list elements come first. */
  lemma {:induction false} ItemPathsGrow(d: Json, target: string, prefix: seq<Step>, m: nat, n: nat)
    requires d.Array? && m <= n <= |d.items|
    ensures ItemPaths(d, target, prefix, m) <= ItemPaths(d, target, prefix, n)
    decreases n
  {
    if m < n {
      ItemPathsGrow(d, target, prefix, m, n - 1);
    }
  }

  /** A dict item whose key is `target` is reported right after the paths of
      the items before it, and the search goes on into its value: the paths
      found there follow immediately. */
  lemma MatchBeforeInner(d: Json, target: string, prefix: seq<Step>, i: nat)
    requires d.Object? && i < |d.entries| && d.entries[i].0 == target
    ensures var path := prefix + [Key(target)];
      EntryPaths(d, target, prefix, i) + [path] + PathsTo(d.entries[i].1, target, path) <= PathsTo(d, target, prefix)
  {
    EntryPathsGrow(d, target, prefix, i + 1, |d.entries|);
  }

  /** The elements of a list are searched in order, each right after the ones
      before it. */
  lemma ItemsInOrder(d: Json, target: string, prefix: seq<Step>, i: nat)
    requires d.Array? && i < |d.items|
    ensures ItemPaths(d, target, prefix, i) + PathsTo(d.items[i], target, prefix + [Index(i)]) <= PathsTo(d, target, prefix)
  {
    ItemPathsGrow(d, target, prefix, i + 1, |d.items|);
  }

  /** A prefix's elements are elements of the longer sequence. */
  lemma PrefixMember<T>(a: seq<T>, b: seq<T>, x: T)
    requires a <= b && x in a
    ensures x in b
  {
    var j :| 0 <= j < |a| && a[j] == x;
    assert b[j] == x;
  }

  /** Every path leading to `target` is reported. */
  lemma {:induction false} PathsComplete(d: Json, target: string, prefix: seq<Step>, path: seq<Step>)
    requires LeadsTo(d, target, path)
    ensures prefix + path in PathsTo(d, target, prefix)
    decreases d, 1
  {
    if path[0].Key? {
      KeyStepComplete(d, target, prefix, path);
    } else {
      IndexStepComplete(d, target, prefix, path);
    }
  }

  lemma {:induction false} KeyStepComplete(d: Json, target: string, prefix: seq<Step>, path: seq<Step>)
    requires LeadsTo(d, target, path) && path[0].Key?
    ensures prefix + path in PathsTo(d, target, prefix)
    decreases d, 0
  {
    var k := path[0].key;
    var i :| 0 <= i < |d.entries| && d.entries[i].0 == k && ValidPath(d.entries[i].1, path[1..]);
    var step := prefix + [Key(k)];
    var here := EntryPaths(d, target, prefix, i + 1);
    assert prefix + path == step + path[1..] by {
      assert path == [path[0]] + path[1..];
    }
    if |path| == 1 {
      assert k == target;
      assert here == EntryPaths(d, target, prefix, i) + [step] + PathsTo(d.entries[i].1, target, step);
      assert path[1..] == [];
      assert step + path[1..] == step;
    } else {
      assert LeadsTo(d.entries[i].1, target, path[1..]);
      PathsComplete(d.entries[i].1, target, step, path[1..]);
    }
    assert prefix + path in here;
    EntryPathsGrow(d, target, prefix, i + 1, |d.entries|);
    PrefixMember(here, PathsTo(d, target, prefix), prefix + path);
  }

  lemma {:induction false} IndexStepComplete(d: Json, target: string, prefix: seq<Step>, path: seq<Step>)
    requires LeadsTo(d, target, path) && path[0].Index?
    ensures prefix + path in PathsTo(d, target, prefix)
    decreases d, 0
  {
    var i := path[0].index;
    var step := prefix + [Index(i)];
    var here := ItemPaths(d, target, prefix, i + 1);
    assert prefix + path == step + path[1..] by {
      assert path == [path[0]] + path[1..];
    }
    assert LeadsTo(d.items[i], target, path[1..]);
    PathsComplete(d.items[i], target, step, path[1..]);
    assert step + path[1..] in here;
    ItemPathsGrow(d, target, prefix, i + 1, |d.items|);
    PrefixMember(here, PathsTo(d, target, prefix), prefix + path);
  }

  // ---------------------------------------------------------------------
  // is_price_symbol
  // ---------------------------------------------------------------------

  /** Every character of `s` is a digit or `c`. */
  predicate DigitsOr(s: string, c: char) {
    forall i :: 0 <= i < |s| ==> IsDigit(s[i]) || s[i] == c
  }

  /** Every character of `s` is a digit, `sep` or `dec`. */
  predicate PriceChars(s: string, sep: char, dec: char) {
    forall i :: 0 <= i < |s| ==> IsDigit(s[i]) || s[i] == sep || s[i] == dec
  }

  predicate HasDigit(s: string) {
    exists i :: 0 <= i < |s| && IsDigit(s[i])
  }

  /** A convention: a grouping separator and a decimal mark, distinct and
      neither of them a digit. */
  predicate Convention(sep: char, dec: char) {
    sep != dec && !IsDigit(sep) && !IsDigit(dec)
  }

  /** `is_price_symbol(s, sep, dec)`. */
  function IsPriceSymbol(s: string, sep: char, dec: char): (r: bool)
    ensures r ==> PriceChars(s, sep, dec) && HasDigit(s)
  {
    if !IsDigits(RemoveChar(RemoveChar(s, dec), sep)) then false
    else
      RemovedSeparatorsOnlyDigits(s, sep, dec);
      if IsDigits(s) then true
      else
        var parts := Split(s, dec);
        if |parts| >= 3 then false
        else if |parts| == 2 && (|parts[0]| == 0 || |parts[1]| == 0 || !IsDigits(parts[1])) then false
        else
          var groups := Split(parts[0], sep);
          if |groups| == 1 then true
          else (forall k :: 1 <= k < |groups| ==> |groups[k]| == 3) && |groups[0]| <= 3
  }

  /** Groups of exactly three digits, one `sep` between neighbours: "123",
      "123,456". */
  predicate Triples(t: string, sep: char)
    decreases |t|
  {
    |t| >= 3 && AllDigits(t[..3]) && (|t| == 3 || (t[3] == sep && Triples(t[4..], sep)))
  }

  /** The integer part of an amount: plain digits, or a leading group of at
      most three digits (possibly none) followed by `sep` and triples. */
  predicate IntegerPart(i: string, sep: char) {
    IsDigits(i)
    || (sep in i && IndexOf(i, sep) <= 3 && AllDigits(i[..IndexOf(i, sep)]) && Triples(i[IndexOf(i, sep) + 1..], sep))
  }

  /** The amounts a convention accepts: an integer part, then optionally
      `dec` and a non-empty run of digits. */
  predicate Amount(s: string, sep: char, dec: char) {
    if dec in s then IntegerPart(s[..IndexOf(s, dec)], sep) && IsDigits(s[IndexOf(s, dec) + 1..])
    else IntegerPart(s, sep)
  }

  /** The first test of `is_price_symbol`: the string without its separators
      is a digit string exactly when it is made of digits and separators and
      holds at least one digit. */
  lemma RemovedSeparators(s: string, sep: char, dec: char)
    requires Convention(sep, dec)
    ensures IsDigits(RemoveChar(RemoveChar(s, dec), sep)) <==> PriceChars(s, sep, dec) && HasDigit(s)
  {
    if IsDigits(RemoveChar(RemoveChar(s, dec), sep)) {
      RemovedSeparatorsOnlyDigits(s, sep, dec);
    }
    if PriceChars(s, sep, dec) && HasDigit(s) {
      DigitsAfterRemoving(s, sep, dec);
    }
  }

  lemma RemovedSeparatorsOnlyDigits(s: string, sep: char, dec: char)
    requires IsDigits(RemoveChar(RemoveChar(s, dec), sep))
    ensures PriceChars(s, sep, dec) && HasDigit(s)
  {
    var r := RemoveChar(RemoveChar(s, dec), sep);
    forall i | 0 <= i < |s|
      ensures IsDigit(s[i]) || s[i] == sep || s[i] == dec
    {
      if s[i] != sep && s[i] != dec {
        assert s[i] in r;
      }
    }
    assert r[0] in s;
  }

  lemma DigitsAfterRemoving(s: string, sep: char, dec: char)
    requires Convention(sep, dec) && PriceChars(s, sep, dec) && HasDigit(s)
    ensures IsDigits(RemoveChar(RemoveChar(s, dec), sep))
  {
    var r := RemoveChar(RemoveChar(s, dec), sep);
    var j :| 0 <= j < |s| && IsDigit(s[j]);
    assert s[j] in r;
    forall i | 0 <= i < |r|
      ensures IsDigit(r[i])
    {
      assert r[i] in s;
    }
  }

  /** Every piece of `t` between the `sep`s has length three. */
  predicate PiecesOfThree(t: string, sep: char) {
    forall k :: 0 <= k < |Split(t, sep)| ==> |Split(t, sep)[k]| == 3
  }

  /** Triples are exactly the digit-and-`sep` strings whose pieces between the
      `sep`s all have length three. */
  lemma TriplesSplit(t: string, sep: char)
    requires !IsDigit(sep)
    ensures Triples(t, sep) <==> DigitsOr(t, sep) && PiecesOfThree(t, sep)
  {
    if Triples(t, sep) {
      TriplesPieces(t, sep);
    }
    if DigitsOr(t, sep) && PiecesOfThree(t, sep) {
      PiecesTriples(t, sep);
    }
  }

  /** A suffix of a digit-and-`sep` string is one too. */
  lemma DigitsOrSuffix(t: string, sep: char, n: nat)
    requires n <= |t| && DigitsOr(t, sep)
    ensures DigitsOr(t[n..], sep)
  {
    forall i | 0 <= i < |t| - n
      ensures IsDigit(t[n..][i]) || t[n..][i] == sep
    {
      assert t[n..][i] == t[i + n];
    }
  }

  /** In a digit-and-`sep` string, everything before the first `sep` is
      digits. */
  lemma DigitsBeforeSep(t: string, sep: char)
    requires sep in t && DigitsOr(t, sep)
    ensures AllDigits(t[..IndexOf(t, sep)])
  {
    var j := IndexOf(t, sep);
    forall i | 0 <= i < j
      ensures IsDigit(t[..j][i])
    {
      assert t[..j][i] == t[i];
      assert t[i] in t[..j];
    }
  }

  lemma {:induction false} TriplesPieces(t: string, sep: char)
    requires !IsDigit(sep) && Triples(t, sep)
    ensures DigitsOr(t, sep) && PiecesOfThree(t, sep)
    decreases |t|
  {
    if |t| == 3 {
      assert t == t[..3];
      assert sep !in t;
      assert Split(t, sep) == [t];
    } else {
      var rest := t[4..];
      TriplesPieces(rest, sep);
      assert t[..3] + [sep] + rest == t;
      assert sep !in t[..3];
      SplitFirst(t[..3], rest, sep);
      forall i | 0 <= i < |t|
        ensures IsDigit(t[i]) || t[i] == sep
      {
        if i < 3 {
          assert t[i] == t[..3][i];
        } else if i > 3 {
          assert t[i] == rest[i - 4];
        }
      }
    }
  }

  lemma {:induction false} PiecesTriples(t: string, sep: char)
    requires !IsDigit(sep) && DigitsOr(t, sep) && PiecesOfThree(t, sep)
    ensures Triples(t, sep)
    decreases |t|
  {
    var pieces := Split(t, sep);
    if sep !in t {
      assert pieces == [t];
      assert t == t[..3];
    } else {
      var j := IndexOf(t, sep);
      var rest := t[j + 1..];
      assert pieces == [t[..j]] + Split(rest, sep);
      assert |pieces[0]| == 3;
      assert PiecesOfThree(rest, sep) by {
        forall k | 0 <= k < |Split(rest, sep)|
          ensures |Split(rest, sep)[k]| == 3
        {
          assert Split(rest, sep)[k] == pieces[k + 1];
        }
      }
      DigitsOrSuffix(t, sep, j + 1);
      PiecesTriples(rest, sep);
      DigitsBeforeSep(t, sep);
    }
  }

  /** An integer part is non-empty, made of digits and `sep`, and holds a
      digit. */
  lemma IntegerPartChars(i: string, sep: char)
    requires !IsDigit(sep) && IntegerPart(i, sep)
    ensures |i| > 0 && DigitsOr(i, sep) && HasDigit(i)
  {
    if !IsDigits(i) {
      var j := IndexOf(i, sep);
      var rest := i[j + 1..];
      TriplesSplit(rest, sep);
      assert IsDigit(rest[..3][0]) && rest[0] == i[j + 1];
      forall k | 0 <= k < |i|
        ensures IsDigit(i[k]) || i[k] == sep
      {
        if k < j {
          assert i[k] == i[..j][k];
        } else if k > j {
          assert i[k] == rest[k - j - 1];
        }
      }
    } else {
      assert IsDigit(i[0]);
    }
  }

  /** The grouping test of `is_price_symbol` on a non-empty string of digits
      and `sep`: one piece, or a first piece of at most three characters and
      every later piece of exactly three, is the integer-part grammar. */
  lemma IntegerPartBySplit(i: string, sep: char)
    requires !IsDigit(sep) && |i| > 0 && DigitsOr(i, sep)
    ensures var gs := Split(i, sep);
      IntegerPart(i, sep) <==> |gs| == 1 || ((forall k :: 1 <= k < |gs| ==> |gs[k]| == 3) && |gs[0]| <= 3)
  {
    var gs := Split(i, sep);
    if sep !in i {
      assert gs == [i];
      assert IsDigits(i);
    } else {
      var j := IndexOf(i, sep);
      var rest := i[j + 1..];
      assert gs == [i[..j]] + Split(rest, sep);
      assert !IsDigits(i) by {
        assert !IsDigit(i[j]);
      }
      DigitsBeforeSep(i, sep);
      assert IntegerPart(i, sep) <==> j <= 3 && Triples(rest, sep);
      DigitsOrSuffix(i, sep, j + 1);
      TriplesSplit(rest, sep);
      LaterPiecesOfThree(gs, i[..j], Split(rest, sep));
    }
  }

  /** The pieces after the first are the pieces of what follows it. */
  lemma LaterPiecesOfThree(gs: seq<string>, first: string, later: seq<string>)
    requires gs == [first] + later
    ensures (forall k :: 1 <= k < |gs| ==> |gs[k]| == 3) <==> forall k :: 0 <= k < |later| ==> |later[k]| == 3
  {
    if forall k :: 0 <= k < |later| ==> |later[k]| == 3 {
      forall k | 1 <= k < |gs|
        ensures |gs[k]| == 3
      {
        assert gs[k] == later[k - 1];
      }
    }
    if forall k :: 1 <= k < |gs| ==> |gs[k]| == 3 {
      forall k | 0 <= k < |later|
        ensures |later[k]| == 3
      {
        assert gs[k + 1] == later[k];
      }
    }
  }

  lemma AmountWithoutDecimals(s: string, sep: char, dec: char)
    requires Convention(sep, dec) && dec !in s
    ensures IsPriceSymbol(s, sep, dec) <==> Amount(s, sep, dec)
  {
    RemovedSeparators(s, sep, dec);
    assert Split(s, dec) == [s];
    if Amount(s, sep, dec) {
      IntegerPartChars(s, sep);
      IntegerPartBySplit(s, sep);
    }
    if IsPriceSymbol(s, sep, dec) {
      assert |s| > 0 && DigitsOr(s, sep);
      IntegerPartBySplit(s, sep);
    }
  }

  lemma AmountWithDecimals(s: string, sep: char, dec: char)
    requires Convention(sep, dec) && dec in s
    ensures IsPriceSymbol(s, sep, dec) <==> Amount(s, sep, dec)
  {
    if Amount(s, sep, dec) {
      DecimalAmountAccepted(s, sep, dec);
    }
    if IsPriceSymbol(s, sep, dec) {
      AcceptedDecimalIsAmount(s, sep, dec);
    }
  }

  lemma DecimalAmountAccepted(s: string, sep: char, dec: char)
    requires Convention(sep, dec) && dec in s && Amount(s, sep, dec)
    ensures IsPriceSymbol(s, sep, dec)
  {
    var j := IndexOf(s, dec);
    var whole, frac := s[..j], s[j + 1..];
    assert s == whole + [dec] + frac;
    IntegerPartChars(whole, sep);
    IntegerPartBySplit(whole, sep);
    assert dec !in frac;
    assert Split(s, dec) == [whole, frac];
    assert PriceChars(s, sep, dec) by {
      forall k | 0 <= k < |s|
        ensures IsDigit(s[k]) || s[k] == sep || s[k] == dec
      {
        if k < j {
          assert s[k] == whole[k];
        } else if k > j {
          assert s[k] == frac[k - j - 1];
        }
      }
    }
    assert HasDigit(s) by {
      var k :| 0 <= k < |whole| && IsDigit(whole[k]);
      assert s[k] == whole[k];
    }
    DigitsAfterRemoving(s, sep, dec);
    assert !IsDigits(s) by {
      assert !IsDigit(s[j]);
    }
  }

  lemma AcceptedDecimalIsAmount(s: string, sep: char, dec: char)
    requires Convention(sep, dec) && dec in s && IsPriceSymbol(s, sep, dec)
    ensures Amount(s, sep, dec)
  {
    var j := IndexOf(s, dec);
    var whole, frac := s[..j], s[j + 1..];
    RemovedSeparatorsOnlyDigits(s, sep, dec);
    assert !IsDigits(s) by {
      assert !IsDigit(s[j]);
    }
    assert Split(s, dec) == [whole] + Split(frac, dec);
    assert dec !in frac;
    assert Split(frac, dec) == [frac];
    assert DigitsOr(whole, sep) by {
      forall k | 0 <= k < |whole|
        ensures IsDigit(whole[k]) || whole[k] == sep
      {
        assert whole[k] == s[k];
        assert whole[k] in whole;
      }
    }
    IntegerPartBySplit(whole, sep);
  }

  /** `is_price_symbol(s, sep, dec)` accepts exactly the amounts of its
      convention. */
  lemma IsPriceSymbolIsAmount(s: string, sep: char, dec: char)
    requires Convention(sep, dec)
    ensures IsPriceSymbol(s, sep, dec) <==> Amount(s, sep, dec)
  {
    if dec in s {
      AmountWithDecimals(s, sep, dec);
    } else {
      AmountWithoutDecimals(s, sep, dec);
    }
  }

  /** The individual rules of `is_price_symbol`: only digits and separators
      with at least one digit, a plain digit string always passes, and at most
      one decimal mark, with digits on both sides of it. */
  lemma PriceSymbolRules(s: string, sep: char, dec: char)
    requires Convention(sep, dec)
    ensures IsPriceSymbol(s, sep, dec) ==> PriceChars(s, sep, dec) && HasDigit(s)
    ensures IsDigits(s) ==> IsPriceSymbol(s, sep, dec)
    ensures IsPriceSymbol(s, sep, dec) ==> multiset(s)[dec] <= 1
    ensures IsPriceSymbol(s, sep, dec) && dec in s ==>
      0 < IndexOf(s, dec) && IsDigits(s[IndexOf(s, dec) + 1..])
  {
    RemovedSeparators(s, sep, dec);
    SplitCount(s, dec);
    if IsDigits(s) {
      assert PriceChars(s, sep, dec) && IsDigit(s[0]);
    }
    if IsPriceSymbol(s, sep, dec) && dec in s {
      IsPriceSymbolIsAmount(s, sep, dec);
      IntegerPartChars(s[..IndexOf(s, dec)], sep);
    }
  }

  // ---------------------------------------------------------------------
  // is_price
  // ---------------------------------------------------------------------

  /** Some currencies of the list `is_price` scans, in its order: a few of its
      first entries, common codes and symbols, and its last entry. Entries are
      skipped, so the entry that follows a currency here is not always the one
      that follows it in the full list ("USD" is followed by "$" here, by "UYU"
      there); `PriceAsWritten(s, Currencies)` therefore is the program's
      `is_price` only for strings whose match and next entry agree with the
      full list, and every general lemma takes the list as a parameter. */
  const Currencies: seq<string> :=
    ["MOP$", "Ptas", "AED", "EUR", "GBP", "USD", "$", "£", "¥", "€", "円"]

  /** Passes one of the three conventions: `,` groups with `.` decimals, `.`
      groups with `,` decimals, or space groups with `,` decimals. */
  predicate AnyConvention(s: string) {
    IsPriceSymbol(s, ',', '.') || IsPriceSymbol(s, '.', ',') || IsPriceSymbol(s, ' ', ',')
  }

  /** The index of the first currency occurring in `s`. */
  function FirstMatch(cs: seq<string>, s: string): (r: Option<nat>)
    ensures r.Some? ==>
              r.value < |cs| && IsSubstring(cs[r.value], s)
              && forall k :: 0 <= k < r.value ==> !IsSubstring(cs[k], s)
    ensures r.None? <==> forall k :: 0 <= k < |cs| ==> !IsSubstring(cs[k], s)
  {
    if |cs| == 0 then None
    else if IsSubstring(cs[0], s) then Some(0)
    else
      match FirstMatch(cs[1..], s)
      case None => None
      case Some(m) => Some(m + 1)
  }

  /** What `is_price(s)` computes over currency list `cs`: no currency gives
      false; otherwise the entry AFTER the first match is deleted before the
      conventions are tried, and a match on the last entry is an error. */
  function PriceAsWritten(s: string, cs: seq<string>): (r: Result<bool, PyError>)
    ensures (forall k :: 0 <= k < |cs| ==> !IsSubstring(cs[k], s)) ==> r == Success(false)
    ensures r.Failure? <==>
              |cs| > 0 && IsSubstring(cs[|cs| - 1], s)
              && forall k :: 0 <= k < |cs| - 1 ==> !IsSubstring(cs[k], s)
    ensures r.Failure? ==> r.error == IndexError
  {
    match FirstMatch(cs, s)
    case None => Success(false)
    case Some(m) =>
      if m + 1 == |cs| then Failure(IndexError)
      else Success(AnyConvention(Strip(RemoveAll(s, cs[m + 1]))))
  }

  /** `is_price(s)` with currency list `cs`. */
  method IsPrice(s: string, cs: seq<string>) returns (r: Result<bool, PyError>)
    ensures r == PriceAsWritten(s, cs)
  {
    var i := 0;
    var identified := false;
    while i < |cs| && !identified
      invariant i <= |cs|
      invariant !identified ==> forall k :: 0 <= k < i ==> !IsSubstring(cs[k], s)
      invariant identified ==> 0 < i && FirstMatch(cs, s) == Some(i - 1)
    {
      identified := identified || IsSubstring(cs[i], s);
      i := i + 1;
    }
    if !identified {
      return Success(false);
    }
    if i == |cs| {
      return Failure(IndexError);
    }
    var rest := Strip(RemoveAll(s, cs[i]));
    r := Success(AnyConvention(rest));
  }

  /** `is_price` as evidently intended: the currency that matched is the one
      deleted. */
  function PriceIntended(s: string, cs: seq<string>): (r: bool)
    ensures r ==> exists k :: 0 <= k < |cs| && IsSubstring(cs[k], s)
  {
    match FirstMatch(cs, s)
    case None => false
    case Some(m) => AnyConvention(Strip(RemoveAll(s, cs[m])))
  }

  /** With the matched currency deleted, a currency, a space and an amount of
      the first two conventions is a price, when no earlier currency of the
      list occurs and the currency starts with a character no amount holds. */
  lemma IntendedAcceptsSymbolAmount(cs: seq<string>, m: nat, amount: string)
    requires m < |cs| && |cs[m]| > 0
    requires !IsDigit(cs[m][0]) && cs[m][0] != ' ' && cs[m][0] != ',' && cs[m][0] != '.'
    requires forall k :: 0 <= k < m ==> !IsSubstring(cs[k], cs[m] + " " + amount)
    requires Amount(amount, ',', '.') || Amount(amount, '.', ',')
    ensures PriceIntended(cs[m] + " " + amount, cs)
  {
    var sym := cs[m];
    var s := sym + " " + amount;
    var tail := " " + amount;
    assert s[..|sym|] == sym && s[|sym|..] == tail;
    assert FirstMatch(cs, s) == Some(m);
    assert RemoveAll(s, sym) == RemoveAll(tail, sym);
    AmountBoundaries(amount, sym[0]);
    assert sym[0] !in tail by {
      assert tail == [' '] + amount;
    }
    RemoveAllSkipsPrefix(tail, [], sym);
    assert tail + [] == tail;
    assert RemoveAll(s, sym) == tail;
    StripLeadingBlank(amount);
    if Amount(amount, ',', '.') {
      IsPriceSymbolIsAmount(amount, ',', '.');
    } else {
      IsPriceSymbolIsAmount(amount, '.', ',');
    }
  }

  /** An amount of the first two conventions is non-empty, has no whitespace
      at either end, and holds no character other than digits, ',' and '.'. */
  lemma AmountBoundaries(amount: string, c: char)
    requires Amount(amount, ',', '.') || Amount(amount, '.', ',')
    requires !IsDigit(c) && c != ',' && c != '.'
    ensures |amount| > 0 && !IsSpace(amount[0]) && !IsSpace(amount[|amount| - 1]) && c !in amount
  {
    if Amount(amount, ',', '.') {
      AmountChars(amount, ',', '.');
    } else {
      AmountChars(amount, '.', ',');
    }
    assert c !in amount by {
      forall k | 0 <= k < |amount|
        ensures amount[k] != c
      {
      }
    }
  }

  /** An amount is non-empty, holds a digit, and is made of digits, `sep` and
      `dec`. */
  lemma AmountChars(s: string, sep: char, dec: char)
    requires !IsDigit(sep) && Amount(s, sep, dec)
    ensures |s| > 0 && PriceChars(s, sep, dec) && HasDigit(s)
  {
    if dec in s {
      var j := IndexOf(s, dec);
      var whole, frac := s[..j], s[j + 1..];
      IntegerPartChars(whole, sep);
      forall k | 0 <= k < |s|
        ensures IsDigit(s[k]) || s[k] == sep || s[k] == dec
      {
        if k < j {
          assert s[k] == whole[k];
        } else if k > j {
          assert s[k] == frac[k - j - 1];
        }
      }
      var k :| 0 <= k < |whole| && IsDigit(whole[k]);
      assert s[k] == whole[k];
    } else {
      IntegerPartChars(s, sep);
    }
  }

  /** A string starting with a character that is no digit and no separator
      of any convention is not a price. */
  lemma LeadingLetterNotPrice(s: string)
    requires |s| > 0 && !IsDigit(s[0]) && s[0] != ',' && s[0] != '.' && s[0] != ' '
    ensures !AnyConvention(s)
  {
    PriceSymbolRules(s, ',', '.');
    PriceSymbolRules(s, '.', ',');
    PriceSymbolRules(s, ' ', ',');
  }

  /** As written, a currency, a space and an amount is NOT a price when the
      entry after the currency does not occur in the string: that entry is the
      one deleted, the currency stays and no convention accepts it. The
      intended deletion accepts the same string. */
  lemma AsWrittenDeletesNextCurrency(cs: seq<string>, m: nat, amount: string)
    requires m + 1 < |cs| && |cs[m]| > 0 && |cs[m + 1]| > 0
    requires !IsDigit(cs[m][0]) && !IsSpace(cs[m][0]) && cs[m][0] != ',' && cs[m][0] != '.'
    requires forall k :: 0 <= k < m ==> !IsSubstring(cs[k], cs[m] + " " + amount)
    requires cs[m + 1][0] !in cs[m] + " " + amount
    requires Amount(amount, ',', '.') || Amount(amount, '.', ',')
    ensures PriceAsWritten(cs[m] + " " + amount, cs) == Success(false)
    ensures PriceIntended(cs[m] + " " + amount, cs)
  {
    var s := cs[m] + " " + amount;
    assert s[..|cs[m]|] == cs[m];
    assert FirstMatch(cs, s) == Some(m);
    AmountBoundaries(amount, cs[m][0]);
    assert s[0] == cs[m][0] && s[|s| - 1] == amount[|amount| - 1];
    UntouchedNotPrice(s, cs[m + 1]);
    IntendedAcceptsSymbolAmount(cs, m, amount);
  }

  /** Deleting a pattern whose first character does not occur leaves the
      string as it is, so a string that starts with a letter and ends in no
      blank is still not a price. */
  lemma UntouchedNotPrice(s: string, pat: string)
    requires |pat| > 0 && pat[0] !in s
    requires |s| > 0 && !IsDigit(s[0]) && !IsSpace(s[0]) && s[0] != ',' && s[0] != '.'
    requires !IsSpace(s[|s| - 1])
    ensures !AnyConvention(Strip(RemoveAll(s, pat)))
  {
    RemoveAllSkipsPrefix(s, [], pat);
    assert s + [] == s;
    StripUnpadded(s);
    LeadingLetterNotPrice(s);
  }

  /** "USD 12" over ["USD", "EUR"] is rejected as written and accepted as
      intended. */
  lemma UsdTwelve()
    ensures PriceAsWritten("USD" + " " + "12", ["USD", "EUR"]) == Success(false)
    ensures PriceIntended("USD" + " " + "12", ["USD", "EUR"])
  {
    assert Amount("12", ',', '.') by {
      assert IsDigits("12");
    }
    AsWrittenDeletesNextCurrency(["USD", "EUR"], 0, "12");
  }

  /** "12 円" holds only the last currency of the list, so the lookup of the
      entry after it raises. */
  lemma LastCurrencyRaises()
    ensures PriceAsWritten("12 円", Currencies).Failure?
  {
    var s := "12 円";
    forall k | 0 <= k < |Currencies| - 1
      ensures !IsSubstring(Currencies[k], s)
    {
      NotSubstring(Currencies[k], s);
    }
    assert "円" <= s[3..];
    assert IsSubstring("円", s);
  }
}
