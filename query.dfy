/**
 * The store-agnostic part of a read query: a `where` condition and its evaluation, and the
 * filter, `orderBy: { createdAt }`, `skip` and `take` steps of a `findMany`, stated over a
 * table held as a sequence of records.
 */
module Query {
  import opened Wrappers
  import opened Calendar

  /** Lower case for ASCII letters; every other character is left alone. */
  function LowerChar(c: char): char {
    if 'A' <= c <= 'Z' then (c as int + 32) as char else c
  }

  function Lower(s: string): (r: string)
    ensures |r| == |s|
    ensures forall i :: 0 <= i < |s| ==> r[i] == LowerChar(s[i])
  {
    seq(|s|, i requires 0 <= i < |s| => LowerChar(s[i]))
  }

  /** `t` occurs in `s` as a contiguous piece (the empty text occurs everywhere). */
  predicate IsSubstring(t: string, s: string)
    decreases |s|
  {
    t <= s || (|s| > 0 && IsSubstring(t, s[1..]))
  }

  /** The same relation stated by position: `t` starts at some index `i` of `s`. */
  lemma {:induction false} IsSubstringAt(t: string, s: string)
    ensures IsSubstring(t, s) <==> exists i :: 0 <= i <= |s| && t <= s[i..]
    decreases |s|
  {
    if t <= s {
      assert s[0..] == s;
    } else if |s| > 0 {
      IsSubstringAt(t, s[1..]);
      if IsSubstring(t, s[1..]) {
        var i :| 0 <= i <= |s[1..]| && t <= s[1..][i..];
        assert s[1..][i..] == s[i + 1..];
      } else {
        forall i | 0 <= i <= |s|
          ensures !(t <= s[i..])
        {
          if i == 0 {
            assert s[0..] == s;
          } else {
            assert s[1..][i - 1..] == s[i..];
          }
        }
      }
    } else {
      forall i | 0 <= i <= |s|
        ensures !(t <= s[i..])
      {
        assert s[i..] == s;
      }
    }
  }

  /** Every character of a piece of `s` is a character of `s`. */
  lemma {:induction false} SubstringKeepsCharacters(t: string, s: string)
    ensures IsSubstring(t, s) ==> forall c :: c in t ==> c in s
    decreases |s|
  {
    if t <= s {
      assert forall c :: c in t ==> c in s by {
        forall c | c in t
          ensures c in s
        {
          var k :| 0 <= k < |t| && t[k] == c;
          assert s[k] == c;
        }
      }
    } else if |s| > 0 {
      SubstringKeepsCharacters(t, s[1..]);
    }
  }

  /** `{ contains: text, mode: 'insensitive' }`, with case folded on ASCII letters. */
  predicate ContainsInsensitive(s: string, text: string) {
    IsSubstring(Lower(text), Lower(s))
  }

  /** A text with a letter that occurs in neither case in `s` is not contained in `s`. */
  lemma AbsentLetterExcludes(s: string, text: string, c: char)
    requires c in text && 'a' <= c <= 'z'
    requires c !in s && (c as int - 32) as char !in s
    ensures !ContainsInsensitive(s, text)
  {
    var k :| 0 <= k < |text| && text[k] == c;
    assert Lower(text)[k] == c;
    assert c !in Lower(s) by {
      forall i | 0 <= i < |s|
        ensures Lower(s)[i] != c
      {
        assert s[i] in s;
      }
    }
    SubstringKeepsCharacters(Lower(text), Lower(s));
  }

  /** A `where` condition over the fields `F` of a record. */
  datatype Condition<F> =
    | Contains(field: F, text: string)
    | Equals(field: F, value: string)
    | And(all: seq<Condition<F>>)
    | Or(any: seq<Condition<F>>)

  /** Whether a record, given by the value of each of its fields, satisfies a condition. A field
      that is absent (a missing related record) satisfies neither `Contains` nor `Equals`. */
  predicate Holds<F>(c: Condition<F>, get: F -> Option<string>) {
    match c
    case Contains(f, text) => get(f).Some? && ContainsInsensitive(get(f).value, text)
    case Equals(f, v) => get(f) == Some(v)
    case And(cs) => forall i :: 0 <= i < |cs| ==> Holds(cs[i], get)
    case Or(cs) => exists i :: 0 <= i < |cs| && Holds(cs[i], get)
  }

  /** The records of `s` that satisfy `p`, in their order in `s`. */
  function Filter<T(!new)>(s: seq<T>, p: T -> bool): (r: seq<T>)
    ensures |r| <= |s|
    ensures forall i :: 0 <= i < |r| ==> r[i] in s && p(r[i])
  {
    if s == [] then []
    else (if p(s[0]) then [s[0]] else []) + Filter(s[1..], p)
  }

  /** Each record occurs in the filtered sequence as often as in `s` when it satisfies `p`, and
      not at all otherwise. */
  lemma {:induction false} FilterCounts<T(!new)>(s: seq<T>, p: T -> bool)
    ensures forall x :: multiset(Filter(s, p))[x] == if p(x) then multiset(s)[x] else 0
  {
    if s != [] {
      FilterCounts(s[1..], p);
      assert s == [s[0]] + s[1..];
    }
  }

  /** A stronger predicate never selects more records. */
  lemma {:induction false} FilterMonotone<T(!new)>(s: seq<T>, p: T -> bool, q: T -> bool)
    requires forall x :: p(x) ==> q(x)
    ensures |Filter(s, p)| <= |Filter(s, q)|
  {
    if s != [] {
      FilterMonotone(s[1..], p, q);
    }
  }

  /** Filtering a concatenation filters each part. */
  lemma {:induction false} FilterConcat<T(!new)>(a: seq<T>, b: seq<T>, p: T -> bool)
    ensures Filter(a + b, p) == Filter(a, p) + Filter(b, p)
  {
    if a == [] {
      assert a + b == b;
    } else {
      var head := if p(a[0]) then [a[0]] else [];
      calc {
        Filter(a + b, p);
        { assert (a + b)[0] == a[0] && (a + b)[1..] == a[1..] + b; }
        head + Filter(a[1..] + b, p);
        { FilterConcat(a[1..], b, p); }
        head + (Filter(a[1..], p) + Filter(b, p));
        (head + Filter(a[1..], p)) + Filter(b, p);
      }
    }
  }

  /** A record that fails `p` may be removed from anywhere without changing the result. */
  lemma FilterSkips<T(!new)>(a: seq<T>, x: T, b: seq<T>, p: T -> bool)
    requires !p(x)
    ensures Filter(a + [x] + b, p) == Filter(a + b, p)
  {
    FilterConcat(a + [x], b, p);
    FilterConcat(a, [x], p);
    FilterConcat(a, b, p);
    assert Filter([x], p) == [] by {
      assert [x][1..] == [];
    }
  }

  /** No record satisfies `p`: nothing is selected. */
  lemma {:induction false} FilterNone<T(!new)>(s: seq<T>, p: T -> bool)
    requires forall i :: 0 <= i < |s| ==> !p(s[i])
    ensures Filter(s, p) == []
  {
    if s != [] {
      FilterNone(s[1..], p);
    }
  }

  /** Predicates that agree on every record select the same records. */
  lemma {:induction false} FilterExtensional<T(!new)>(s: seq<T>, p: T -> bool, q: T -> bool)
    requires forall x :: p(x) == q(x)
    ensures Filter(s, p) == Filter(s, q)
  {
    if s != [] {
      FilterExtensional(s[1..], p, q);
    }
  }

  /** A predicate that holds everywhere selects the whole table. */
  lemma {:induction false} FilterAll<T(!new)>(s: seq<T>, p: T -> bool)
    requires forall x :: p(x)
    ensures Filter(s, p) == s
  {
    if s != [] {
      FilterAll(s[1..], p);
    }
  }

  /** The two directions of `orderBy: { createdAt: ... }`. */
  datatype SortOrder = Asc | Desc

  /** `a` may come before `b` in the given order. */
  predicate Before(a: Timestamp, b: Timestamp, order: SortOrder) {
    match order
    case Asc => AtOrBefore(a, b)
    case Desc => AtOrBefore(b, a)
  }

  /** Every record comes no later in the order than each record after it. */
  predicate Sorted<T>(s: seq<T>, key: T -> Timestamp, order: SortOrder) {
    forall i, j :: 0 <= i < j < |s| ==> Before(key(s[i]), key(s[j]), order)
  }

  /** Two positions of a sorted sequence, in order. */
  lemma SortedAt<T>(s: seq<T>, key: T -> Timestamp, order: SortOrder, i: int, j: int)
    requires Sorted(s, key, order) && 0 <= i < j < |s|
    ensures Before(key(s[i]), key(s[j]), order)
  {
  }

  /** `x` placed into a sorted sequence in front of the first record it may precede. */
  function Insert<T>(x: T, s: seq<T>, key: T -> Timestamp, order: SortOrder): (r: seq<T>)
    requires Sorted(s, key, order)
    ensures Sorted(r, key, order)
    ensures multiset(r) == multiset(s) + multiset{x}
  {
    if s == [] then [x]
    else if Before(key(x), key(s[0]), order) then
      assert forall j :: 0 < j < |s| ==> Before(key(s[0]), key(s[j]), order);
      TransitiveFromFirst(x, s, key, order);
      [x] + s
    else
      assert s == [s[0]] + s[1..];
      var t := Insert(x, s[1..], key, order);
      LaterThanHead(x, s, t, key, order);
      [s[0]] + t
  }

  /** What `Insert` needs when `x` goes first: it precedes everything `s[0]` precedes. */
  lemma TransitiveFromFirst<T>(x: T, s: seq<T>, key: T -> Timestamp, order: SortOrder)
    requires s != [] && Sorted(s, key, order) && Before(key(x), key(s[0]), order)
    ensures Sorted([x] + s, key, order)
  {
    forall i, j | 0 <= i < j < |[x] + s|
      ensures Before(key(([x] + s)[i]), key(([x] + s)[j]), order)
    {
      if i == 0 {
        if j > 1 {
          if order == Asc {
            AtOrBeforeTransitive(key(x), key(s[0]), key(s[j - 1]));
          } else {
            AtOrBeforeTransitive(key(s[j - 1]), key(s[0]), key(x));
          }
        }
      }
    }
  }

  /** What `Insert` needs when `s[0]` stays first: it precedes `x` and the rest of `s`. */
  lemma LaterThanHead<T>(x: T, s: seq<T>, t: seq<T>, key: T -> Timestamp, order: SortOrder)
    requires s != [] && Sorted(s, key, order) && !Before(key(x), key(s[0]), order)
    requires Sorted(t, key, order) && multiset(t) == multiset(s[1..]) + multiset{x}
    ensures Sorted([s[0]] + t, key, order)
  {
    AtOrBeforeTotal(key(x), key(s[0]));
    forall y | y in t
      ensures Before(key(s[0]), key(y), order)
    {
      assert y in multiset(t);
      if y != x {
        assert y in multiset(s[1..]);
        var k :| 0 <= k < |s[1..]| && s[1..][k] == y;
        assert s[k + 1] == y;
      }
    }
    forall i, j | 0 <= i < j < |[s[0]] + t|
      ensures Before(key(([s[0]] + t)[i]), key(([s[0]] + t)[j]), order)
    {
      if i == 0 {
        assert t[j - 1] in t;
      } else {
        assert ([s[0]] + t)[i] == t[i - 1] && ([s[0]] + t)[j] == t[j - 1];
      }
    }
  }

  /** The records of `s` ordered by `key`: sorted, and a permutation of `s`. Records whose keys
      are equal keep their relative order of `s` (the store may order them any way). */
  function SortBy<T>(s: seq<T>, key: T -> Timestamp, order: SortOrder): (r: seq<T>)
    ensures Sorted(r, key, order)
    ensures multiset(r) == multiset(s)
  {
    if s == [] then []
    else
      assert s == [s[0]] + s[1..];
      Insert(s[0], SortBy(s[1..], key, order), key, order)
  }

  function Min(a: int, b: int): int {
    if a <= b then a else b
  }

  /** `skip` then `take`: the records from position `skip` on, at most `take` of them. */
  function Slice<T>(s: seq<T>, skip: nat, take: nat): (r: seq<T>)
    ensures |r| == if skip >= |s| then 0 else Min(take, |s| - skip)
    ensures forall i :: 0 <= i < |r| ==> r[i] == s[skip + i]
  {
    if skip >= |s| then [] else s[skip..Min(|s|, skip + take)]
  }

  /** Position `i` of a slice is position `skip + i` of the sequence. */
  lemma SliceAt<T>(s: seq<T>, skip: nat, take: nat, i: int)
    requires 0 <= i < |Slice(s, skip, take)|
    ensures skip + i < |s| && Slice(s, skip, take)[i] == s[skip + i]
  {
  }
}
