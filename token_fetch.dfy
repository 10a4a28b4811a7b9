/** The fetch requests the service sends to its store. Each predicate the
    service builds is a `Filter`; taking `.first` of a fetch is `FirstWhere`,
    taking the whole fetch is `Fetch`. Records come back in store order. */
module TokenFetch {
  import opened Wrappers
  import opened TokenModels
  import opened TextMatch

  datatype Filter =
    | Selected                // isSelected == true
    | AddressIs(address: string)   // address == %@
    | OnNetwork(url: string)       // networkURL == %@ && isAdded == true
    | Matching(query: string)      // the search predicate of searchForCustomToken

  /** Whether a record satisfies a filter. A missing attribute never
      compares equal to a string and contains nothing. In the search
      predicate `&&` binds tighter than `||`, so "not selected" only
      qualifies the symbol clause. */
  predicate Holds(r: TokenRecord, f: Filter)
    ensures f.Matching? ==>
              (Holds(r, f) <==>
                 || r.address == Some(f.query)
                 || (r.name.Some? && |f.query| > 0 && exists i :: OccursAt(Fold(r.name.value), Fold(f.query), i))
                 || (r.symbol.Some? && |f.query| > 0 && !r.isSelected
                     && exists i :: OccursAt(Fold(r.symbol.value), Fold(f.query), i)))
    ensures f.OnNetwork? && Holds(r, f) ==> r.isAdded && r.networkURL == Some(f.url)
  {
    match f
    case Selected => r.isSelected
    case AddressIs(a) => r.address == Some(a)
    case OnNetwork(url) => r.networkURL == Some(url) && r.isAdded
    case Matching(q) =>
      || r.address == Some(q)
      || (r.name.Some? && ContainsIgnoringCase(r.name.value, q))
      || (r.symbol.Some? && ContainsIgnoringCase(r.symbol.value, q) && !r.isSelected)
  }

  function Bit(b: bool): nat {
    if b then 1 else 0
  }

  /** Index of the first record satisfying `f`, if any. */
  function FirstWhere(s: seq<TokenRecord>, f: Filter): (r: Option<nat>)
    ensures r.Some? ==> r.value < |s| && Holds(s[r.value], f)
    ensures r.Some? ==> forall j :: 0 <= j < r.value ==> !Holds(s[j], f)
    ensures r.None? ==> forall j :: 0 <= j < |s| ==> !Holds(s[j], f)
  {
    if |s| == 0 then None
    else if Holds(s[0], f) then Some(0)
    else match FirstWhere(s[1..], f)
      case None => None
      case Some(k) => Some(k + 1)
  }

  /** Number of records satisfying `f`. */
  function CountWhere(s: seq<TokenRecord>, f: Filter): nat {
    if s == [] then 0 else Bit(Holds(s[0], f)) + CountWhere(s[1..], f)
  }

  /** The records satisfying `f`, in store order. */
  function Fetch(s: seq<TokenRecord>, f: Filter): (r: seq<TokenRecord>)
    ensures |r| == CountWhere(s, f)
    ensures forall x :: x in r ==> x in s && Holds(x, f)
    ensures forall j :: 0 <= j < |s| && Holds(s[j], f) ==> s[j] in r
  {
    if s == [] then []
    else (if Holds(s[0], f) then [s[0]] else []) + Fetch(s[1..], f)
  }

  /** Fetching from two stretches of the store one after the other gives the
      two answers one after the other: a fetch keeps store order. */
  lemma {:induction false} FetchAppend(s: seq<TokenRecord>, t: seq<TokenRecord>, f: Filter)
    ensures Fetch(s + t, f) == Fetch(s, f) + Fetch(t, f)
  {
    if s != [] {
      assert (s + t)[1..] == s[1..] + t;
      FetchAppend(s[1..], t, f);
    } else {
      assert s + t == t;
    }
  }

  /** Count after replacing one record. */
  lemma {:induction false} CountUpdate(s: seq<TokenRecord>, i: nat, x: TokenRecord, f: Filter)
    requires i < |s|
    ensures CountWhere(s[i := x], f) == CountWhere(s, f) - Bit(Holds(s[i], f)) + Bit(Holds(x, f))
  {
    if i == 0 {
      assert s[i := x][1..] == s[1..];
    } else {
      CountUpdate(s[1..], i - 1, x, f);
      assert s[i := x][1..] == s[1..][i - 1 := x];
    }
  }

  /** Count after appending one record. */
  lemma {:induction false} CountAppend(s: seq<TokenRecord>, x: TokenRecord, f: Filter)
    ensures CountWhere(s + [x], f) == CountWhere(s, f) + Bit(Holds(x, f))
  {
    if s != [] {
      assert (s + [x])[1..] == s[1..] + [x];
      CountAppend(s[1..], x, f);
    }
  }

  /** A record that satisfies `f` is counted. */
  lemma {:induction false} CountPositive(s: seq<TokenRecord>, j: nat, f: Filter)
    requires j < |s| && Holds(s[j], f)
    ensures CountWhere(s, f) >= 1
  {
    if j > 0 {
      CountPositive(s[1..], j - 1, f);
    }
  }

  /** Nothing is counted exactly when no record satisfies `f`. */
  lemma {:induction false} CountZero(s: seq<TokenRecord>, f: Filter)
    ensures CountWhere(s, f) == 0 <==> forall j :: 0 <= j < |s| ==> !Holds(s[j], f)
  {
    if s != [] {
      CountZero(s[1..], f);
      assert forall j :: 1 <= j < |s| ==> s[j] == s[1..][j - 1];
    }
  }

  /** Two different records that satisfy `f` are both counted. */
  lemma {:induction false} CountTwo(s: seq<TokenRecord>, i: nat, j: nat, f: Filter)
    requires i < j < |s| && Holds(s[i], f) && Holds(s[j], f)
    ensures CountWhere(s, f) >= 2
  {
    if i == 0 {
      CountPositive(s[1..], j - 1, f);
    } else {
      CountTwo(s[1..], i - 1, j - 1, f);
    }
  }

  /** When exactly one record satisfies `f` and it is record `k`, every other
      record fails `f` and `k` is what the first-match fetch returns. */
  lemma CountOne(s: seq<TokenRecord>, k: nat, f: Filter)
    requires k < |s| && Holds(s[k], f) && CountWhere(s, f) == 1
    ensures forall j :: 0 <= j < |s| && j != k ==> !Holds(s[j], f)
    ensures FirstWhere(s, f) == Some(k)
  {
    forall j | 0 <= j < |s| && j != k
      ensures !Holds(s[j], f)
    {
      if Holds(s[j], f) {
        if j < k { CountTwo(s, j, k, f); } else { CountTwo(s, k, j, f); }
      }
    }
  }

  /** A record satisfying `f` with none before it is the first match. */
  lemma FirstWhereIs(s: seq<TokenRecord>, k: nat, f: Filter)
    requires k < |s| && Holds(s[k], f)
    requires forall j :: 0 <= j < k ==> !Holds(s[j], f)
    ensures FirstWhere(s, f) == Some(k)
  {
    var w := FirstWhere(s, f);
    assert !(w.value < k);
  }

  /** Two stores of the same length whose records agree on `f` answer the
      first-match fetch alike. */
  lemma FirstWhereAgrees(s: seq<TokenRecord>, t: seq<TokenRecord>, f: Filter)
    requires |s| == |t|
    requires forall j :: 0 <= j < |s| ==> Holds(s[j], f) == Holds(t[j], f)
    ensures FirstWhere(s, f) == FirstWhere(t, f)
  {
  }
}
