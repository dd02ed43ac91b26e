/** The ledger of performed conversions: the IDs of conversion providers
    that already ran on the project, written back sorted case-insensitively. */
module ConversionLedger {
  import opened Wrappers
  import opened Seqs

  /** Lower-case folding of ASCII letters; other characters are kept. */
  function LowerAscii(c: char): char {
    if 'A' <= c <= 'Z' then (c as int - 'A' as int + 'a' as int) as char else c
  }

  function Lower(s: string): (r: string)
    ensures |r| == |s|
    ensures forall i | 0 <= i < |s| :: r[i] == LowerAscii(s[i])
  {
    seq(|s|, i requires 0 <= i < |s| => LowerAscii(s[i]))
  }

  /** Lexicographic order on character codes; a proper prefix comes first. */
  predicate LexLe(a: string, b: string) {
    if |a| == 0 then true
    else if |b| == 0 then false
    else a[0] < b[0] || (a[0] == b[0] && LexLe(a[1..], b[1..]))
  }

  lemma {:induction false} LexTotal(a: string, b: string)
    ensures LexLe(a, b) || LexLe(b, a)
  {
    if |a| > 0 && |b| > 0 && a[0] == b[0] {
      LexTotal(a[1..], b[1..]);
    }
  }

  /** `String.CASE_INSENSITIVE_ORDER`: the strings compared after folding. */
  predicate CiLe(a: string, b: string) {
    LexLe(Lower(a), Lower(b))
  }

  /** Every two consecutive IDs are in case-insensitive order. */
  predicate Sorted(s: seq<string>) {
    forall i, j | 0 <= i < |s| && j == i + 1 && j < |s| :: CiLe(s[i], s[j])
  }

  /** Inserts `x` before the first element it does not follow. */
  function Insert(x: string, s: seq<string>): (r: seq<string>)
    requires Sorted(s)
    ensures Sorted(r)
    ensures multiset(r) == multiset(s) + multiset{x}
    ensures |r| > 0 && (r[0] == x || (|s| > 0 && r[0] == s[0]))
  {
    if |s| == 0 then [x]
    else if CiLe(x, s[0]) then [x] + s
    else
      LexTotal(Lower(x), Lower(s[0]));
      var tail := s[1..];
      assert Sorted(tail) by {
        forall i, j | 0 <= i < |tail| && j == i + 1 && j < |tail| ensures CiLe(tail[i], tail[j]) {
          assert tail[i] == s[i + 1] && tail[j] == s[i + 2];
        }
      }
      var rest := Insert(x, tail);
      assert s == [s[0]] + tail;
      [s[0]] + rest
  }

  /** Insertion sort by `CiLe`. */
  function Sort(s: seq<string>): (r: seq<string>)
    ensures Sorted(r)
    ensures multiset(r) == multiset(s)
  {
    if |s| == 0 then []
    else
      assert s == [s[0]] + s[1..];
      Insert(s[0], Sort(s[1..]))
  }

  /** The IDs of a set in some order: `new ArrayList<>(set)` follows the
      set's iteration order, which the model leaves open. */
  method Enumerate(ids: set<string>) returns (s: seq<string>)
    ensures Distinct(s)
    ensures forall x :: x in s <==> x in ids
    ensures |s| == |ids|
  {
    s := [];
    var rest := ids;
    while rest != {}
      invariant Distinct(s)
      invariant forall x :: x in s <==> x in ids && x !in rest
      invariant rest <= ids
      invariant |s| + |rest| == |ids|
      decreases |rest|
    {
      var x :| x in rest;
      s := s + [x];
      rest := rest - {x};
    }
  }

  /** A permutation of a list without duplicates has none. */
  lemma PermutationDistinct(a: seq<string>, b: seq<string>)
    requires multiset(a) == multiset(b) && Distinct(a)
    ensures Distinct(b)
  {
    forall i, j | 0 <= i < j < |b| ensures b[i] != b[j] {
      if b[i] == b[j] {
        var x := b[i];
        assert multiset(b[..j])[x] >= 1 by { assert b[..j][i] == x; }
        assert b == b[..j] + [b[j]] + b[j + 1..];
        assert multiset(b)[x] >= 2;
        CountAtMostOne(a, x);
      }
    }
  }

  /** An element occurs at most once in a list without duplicates. */
  lemma {:induction false} CountAtMostOne(a: seq<string>, x: string)
    requires Distinct(a)
    ensures multiset(a)[x] <= 1
  {
    if |a| > 0 {
      var tail := a[1..];
      assert a == [a[0]] + tail;
      assert Distinct(tail) by {
        forall i, j | 0 <= i < j < |tail| ensures tail[i] != tail[j] {
          assert tail[i] == a[i + 1] && tail[j] == a[j + 1];
        }
      }
      CountAtMostOne(tail, x);
      if a[0] == x {
        assert x !in tail by {
          forall j | 0 <= j < |tail| ensures tail[j] != x { assert tail[j] == a[j + 1]; }
        }
      }
    }
  }

  /** The list the ledger is written as: every ID of the set once, sorted
      case-insensitively. */
  method SortedIds(ids: set<string>) returns (r: seq<string>)
    ensures Sorted(r)
    ensures Distinct(r)
    ensures forall x :: x in r <==> x in ids
  {
    var s := Enumerate(ids);
    r := Sort(s);
    PermutationDistinct(s, r);
    assert forall x :: x in r <==> x in multiset(r);
  }

  /** A conversion provider as the ledger sees it. */
  datatype Provider = Provider(id: string, canDetermineIfConversionAlreadyPerformedByProjectFiles: bool)

  /** The IDs the ledger must record: those of the providers that ran and
      cannot tell from the project files that they already did. */
  function NewIds(usedProviders: seq<Provider>): (r: set<string>)
    ensures forall x :: x in r <==> exists i | 0 <= i < |usedProviders| ::
              !usedProviders[i].canDetermineIfConversionAlreadyPerformedByProjectFiles && usedProviders[i].id == x
  {
    set i | 0 <= i < |usedProviders| && !usedProviders[i].canDetermineIfConversionAlreadyPerformedByProjectFiles
      :: usedProviders[i].id
  }

  /** The IDs of two runs of providers together are those of each; a provider
      that can tell from the project files adds nothing. */
  lemma NewIdsAppend(a: seq<Provider>, b: seq<Provider>)
    ensures NewIds(a + b) == NewIds(a) + NewIds(b)
    ensures forall i | 0 <= i < |a| :: a[i].canDetermineIfConversionAlreadyPerformedByProjectFiles ==>
              NewIds(a[..i] + a[i + 1..]) == NewIds(a)
  {
    var ab := a + b;
    forall x ensures x in NewIds(ab) <==> x in NewIds(a) || x in NewIds(b) {
      if x in NewIds(ab) {
        var i :| 0 <= i < |ab| && !ab[i].canDetermineIfConversionAlreadyPerformedByProjectFiles && ab[i].id == x;
        if i >= |a| { assert b[i - |a|] == ab[i]; }
      }
      if x in NewIds(b) {
        var i :| 0 <= i < |b| && !b[i].canDetermineIfConversionAlreadyPerformedByProjectFiles && b[i].id == x;
        assert ab[|a| + i] == b[i];
      }
      if x in NewIds(a) {
        var i :| 0 <= i < |a| && !a[i].canDetermineIfConversionAlreadyPerformedByProjectFiles && a[i].id == x;
        assert ab[i] == a[i];
      }
    }
    forall i | 0 <= i < |a| && a[i].canDetermineIfConversionAlreadyPerformedByProjectFiles
      ensures NewIds(a[..i] + a[i + 1..]) == NewIds(a)
    {
      var rest := a[..i] + a[i + 1..];
      forall x ensures x in NewIds(rest) <==> x in NewIds(a) {
        if x in NewIds(rest) {
          var j :| 0 <= j < |rest| && !rest[j].canDetermineIfConversionAlreadyPerformedByProjectFiles && rest[j].id == x;
          if j < i { assert rest[j] == a[j]; } else { assert rest[j] == a[j + 1]; }
        }
        if x in NewIds(a) {
          var j :| 0 <= j < |a| && !a[j].canDetermineIfConversionAlreadyPerformedByProjectFiles && a[j].id == x;
          if j < i { assert rest[j] == a[j]; } else { assert j > i && rest[j - 1] == a[j]; }
        }
      }
    }
  }

  /** The ledger step of `saveFiles`: nothing is written when no provider
      needs recording; otherwise the new IDs and the loaded ones, merged and
      sorted. */
  method MergeLedger(loaded: set<string>, usedProviders: seq<Provider>) returns (written: Option<seq<string>>)
    ensures written.None? <==> NewIds(usedProviders) == {}
    ensures written.Some? ==>
              && Sorted(written.value)
              && Distinct(written.value)
              && forall x :: x in written.value <==> x in NewIds(usedProviders) || x in loaded
  {
    var performed := NewIds(usedProviders);
    if performed == {} {
      return None;
    }
    var list := SortedIds(performed + loaded);
    written := Some(list);
  }
}
