/** What each operation of the custom-token service does to, or reads from,
    the store, as functions of the store contents, and the properties the
    service relies on: at most one token is selected, and no two tokens
    share an address. */
module TokenRegistry {
  import opened Wrappers
  import opened TokenModels
  import opened TokenFetch
  import opened DecimalText
  import opened TextMatch

  type Store = seq<TokenRecord>

  /** The single-selection invariant. */
  predicate AtMostOneSelected(s: Store) {
    CountWhere(s, Selected) <= 1
  }

  /** No two records carry the same address. */
  predicate UniqueAddresses(s: Store) {
    forall i, j :: 0 <= i < j < |s| && s[i].address.Some? ==> s[i].address != s[j].address
  }

  lemma UniqueAddressAt(s: Store, i: nat, j: nat)
    requires UniqueAddresses(s) && i < |s| && j < |s| && i != j && s[i].address.Some?
    ensures s[j].address != s[i].address
  {
  }

  predicate Consistent(s: Store) {
    AtMostOneSelected(s) && UniqueAddresses(s)
  }

  /** `t` differs from `s` at most in selection flags. */
  predicate SameButSelection(s: Store, t: Store) {
    |s| == |t| && forall j :: 0 <= j < |s| ==> t[j] == s[j].(isSelected := t[j].isSelected)
  }

  lemma SameButSelectionKeeps(s: Store, t: Store)
    requires SameButSelection(s, t)
    ensures UniqueAddresses(s) ==> UniqueAddresses(t)
    ensures forall a :: FirstWhere(t, AddressIs(a)) == FirstWhere(s, AddressIs(a))
  {
  }

  // ---------------------------------------------------------------------
  // resetSelectedToken

  /** Clears the flag of the first selected record, if there is one. */
  function ClearSelection(s: Store): (r: Store)
    ensures SameButSelection(s, r)
    ensures CountWhere(r, Selected) == if CountWhere(s, Selected) == 0 then 0 else CountWhere(s, Selected) - 1
    ensures forall j :: 0 <= j < |s| && FirstWhere(s, Selected) != Some(j) ==> r[j] == s[j]
    ensures FirstWhere(s, Selected) == None ==> r == s
  {
    match FirstWhere(s, Selected)
    case None => CountZero(s, Selected); s
    case Some(i) =>
      CountUpdate(s, i, s[i].(isSelected := false), Selected);
      s[i := s[i].(isSelected := false)]
  }

  /** Under the invariant, a reset leaves nothing selected. */
  lemma ClearSelectionEmpties(s: Store)
    requires AtMostOneSelected(s)
    ensures CountWhere(ClearSelection(s), Selected) == 0
    ensures Consistent(s) ==> Consistent(ClearSelection(s))
  {
  }

  // ---------------------------------------------------------------------
  // addNewCustomToken

  /** Reset the selection, then update the first record with this address,
      or append a new one, so that it holds the arguments, is added, is on
      the given network and is selected. */
  function AddToken(s: Store, address: string, name: string, decimals: string,
                    symbol: string, network: string): (r: Store)
    ensures |r| == |s| + (if FirstWhere(s, AddressIs(address)).None? then 1 else 0)
    ensures forall j :: 0 <= j < |r| && r[j] != StoredRecord(address, name, decimals, symbol, network) ==>
              j < |s| && r[j] == ClearSelection(s)[j]
  {
    SameButSelectionKeeps(s, ClearSelection(s));
    var cleared := ClearSelection(s);
    var token := StoredRecord(address, name, decimals, symbol, network);
    match FirstWhere(cleared, AddressIs(address))
    case Some(i) => cleared[i := token]
    case None => cleared + [token]
  }

  /** The position the added token takes: that of the first record with its
      address, or the end of the store. */
  function AddIndex(s: Store, address: string): (k: nat)
    ensures k <= |s|
  {
    match FirstWhere(s, AddressIs(address))
    case Some(i) => i
    case None => |s|
  }

  /** Where the token lands: at the first record that had its address, or
      appended; the store grows only when the address was new; every other
      record is as the reset left it. */
  lemma AddTokenPlacement(s: Store, address: string, name: string, decimals: string,
                          symbol: string, network: string)
    ensures var r := AddToken(s, address, name, decimals, symbol, network);
            var k := AddIndex(s, address);
            && |r| == |s| + (if FirstWhere(s, AddressIs(address)).None? then 1 else 0)
            && k < |r|
            && r[k] == StoredRecord(address, name, decimals, symbol, network)
            && FirstWhere(r, AddressIs(address)) == Some(k)
            && forall j :: 0 <= j < |s| && j != k ==> r[j] == ClearSelection(s)[j]
  {
    var cleared := ClearSelection(s);
    var token := StoredRecord(address, name, decimals, symbol, network);
    FirstWhereAgrees(s, cleared, AddressIs(address));
    var r := AddToken(s, address, name, decimals, symbol, network);
    var k := AddIndex(s, address);
    if FirstWhere(s, AddressIs(address)).None? {
      assert r == cleared + [token];
    } else {
      assert r == cleared[k := token];
    }
    assert forall j :: 0 <= j < k ==> r[j] == cleared[j];
    FirstWhereIs(r, k, AddressIs(address));
  }

  /** Under the invariant, the added token is the only selected record and
      the one the selection query returns. */
  lemma {:induction false} AddTokenSelectsOnlyIt(s: Store, address: string, name: string,
                                                 decimals: string, symbol: string, network: string)
    requires AtMostOneSelected(s)
    ensures var r := AddToken(s, address, name, decimals, symbol, network);
            var k := AddIndex(s, address);
            && CountWhere(r, Selected) == 1
            && FirstWhere(r, Selected) == Some(k)
            && forall j :: 0 <= j < |r| && j != k ==> !r[j].isSelected
  {
    var cleared := ClearSelection(s);
    ClearSelectionEmpties(s);
    SameButSelectionKeeps(s, cleared);
    AddTokenPlacement(s, address, name, decimals, symbol, network);
    var token := StoredRecord(address, name, decimals, symbol, network);
    var r := AddToken(s, address, name, decimals, symbol, network);
    var k := AddIndex(s, address);
    if FirstWhere(cleared, AddressIs(address)).Some? {
      if cleared[k].isSelected { CountPositive(cleared, k, Selected); }
      CountUpdate(cleared, k, token, Selected);
    } else {
      CountAppend(cleared, token, Selected);
    }
    CountOne(r, k, Selected);
  }

  /** Adding keeps the store consistent, and then the added token is the
      only record with its address. */
  lemma AddTokenKeepsConsistent(s: Store, address: string, name: string, decimals: string,
                                symbol: string, network: string)
    requires Consistent(s)
    ensures var r := AddToken(s, address, name, decimals, symbol, network);
            && Consistent(r)
            && forall j :: 0 <= j < |r| && r[j].address == Some(address) ==> j == AddIndex(s, address)
  {
    var cleared := ClearSelection(s);
    ClearSelectionEmpties(s);
    SameButSelectionKeeps(s, cleared);
    AddTokenPlacement(s, address, name, decimals, symbol, network);
    AddTokenSelectsOnlyIt(s, address, name, decimals, symbol, network);
    var r := AddToken(s, address, name, decimals, symbol, network);
    var k := AddIndex(s, address);
    forall j | 0 <= j < |r| && j != k
      ensures r[j].address != Some(address)
    {
      assert j < |s| && r[j] == cleared[j];
      if j > k {
        UniqueAddressAt(cleared, k, j);
      }
    }
    forall i, j | 0 <= i < j < |r| && r[i].address.Some?
      ensures r[i].address != r[j].address
    {
      if i != k && j != k {
        assert r[i] == cleared[i] && r[j] == cleared[j];
      }
    }
  }

  // ---------------------------------------------------------------------
  // updateSelectedToken

  /** An empty address resets the selection; an address no record has
      changes nothing; otherwise the currently selected record is deselected
      and the record with that address is selected. */
  function UpdateSelection(s: Store, token: string): (r: Store)
    ensures SameButSelection(s, r)
    ensures token == "" ==> r == ClearSelection(s)
    ensures token != "" && FirstWhere(s, AddressIs(token)).None? ==> r == s
  {
    if token == "" then ClearSelection(s)
    else match FirstWhere(s, AddressIs(token))
      case None => s
      case Some(n) =>
        match FirstWhere(s, Selected)
        case None => s[n := s[n].(isSelected := true)]
        case Some(o) =>
          var d := s[o := s[o].(isSelected := false)];
          d[n := d[n].(isSelected := true)]
  }

  /** The three cases keep the single-selection invariant, and when the
      address is found its record is then the only selected one. Duplicate
      addresses do not matter here. */
  lemma {:induction false} UpdateSelectionKeepsSingleSelection(s: Store, token: string)
    requires AtMostOneSelected(s)
    ensures AtMostOneSelected(UpdateSelection(s, token))
    ensures token != "" && FirstWhere(s, AddressIs(token)).Some? ==>
              var n := FirstWhere(s, AddressIs(token)).value;
              var r := UpdateSelection(s, token);
              && CountWhere(r, Selected) == 1
              && FirstWhere(r, Selected) == Some(n)
              && r[n] == s[n].(isSelected := true)
  {
    var r := UpdateSelection(s, token);
    if token == "" {
      ClearSelectionEmpties(s);
    } else if FirstWhere(s, AddressIs(token)).Some? {
      var n := FirstWhere(s, AddressIs(token)).value;
      if FirstWhere(s, Selected).None? {
        CountZero(s, Selected);
        CountUpdate(s, n, s[n].(isSelected := true), Selected);
      } else {
        var o := FirstWhere(s, Selected).value;
        var d := s[o := s[o].(isSelected := false)];
        CountUpdate(s, o, d[o], Selected);
        if d[n].isSelected { CountPositive(d, n, Selected); }
        CountUpdate(d, n, d[n].(isSelected := true), Selected);
      }
      CountOne(r, n, Selected);
    }
  }

  /** Changing the selection keeps the store consistent. */
  lemma UpdateSelectionKeepsConsistent(s: Store, token: string)
    requires Consistent(s)
    ensures Consistent(UpdateSelection(s, token))
  {
    UpdateSelectionKeepsSingleSelection(s, token);
    SameButSelectionKeeps(s, UpdateSelection(s, token));
  }

  // ---------------------------------------------------------------------
  // deleteToken, as written: it marks the record as added

  /** Sets `isAdded` on the first record with this address. */
  function MarkAdded(s: Store, address: string): (r: Store)
    ensures |r| == |s|
    ensures forall j :: 0 <= j < |s| ==>
              r[j].isAdded == (s[j].isAdded || FirstWhere(s, AddressIs(address)) == Some(j))
  {
    match FirstWhere(s, AddressIs(address))
    case None => s
    case Some(i) => s[i := s[i].(isAdded := true)]
  }

  /** The as-written delete removes nothing, changes no selection and no
      address, and so keeps the store consistent. */
  lemma MarkAddedChangesOnlyIsAdded(s: Store, address: string)
    ensures var r := MarkAdded(s, address);
            && |r| == |s|
            && (forall j :: 0 <= j < |s| ==> r[j] == s[j].(isAdded := r[j].isAdded))
            && CountWhere(r, Selected) == CountWhere(s, Selected)
            && (Consistent(s) ==> Consistent(r))
  {
    match FirstWhere(s, AddressIs(address))
    case None =>
    case Some(i) =>
      CountUpdate(s, i, s[i].(isAdded := true), Selected);
  }

  /** Deleting a listed token leaves it listed: every record that was on the
      token list of a network is still on it afterwards. */
  lemma MarkAddedKeepsListed(s: Store, address: string, url: string)
    ensures forall j :: 0 <= j < |s| && Holds(s[j], OnNetwork(url)) ==>
              Holds(MarkAdded(s, address)[j], OnNetwork(url))
  {
  }

  /** A concrete store on which deleting the only token leaves the token list
      as it was. */
  lemma DeleteLeavesTokenListed()
    ensures var s := [StoredRecord("0xabc", "Token", "18", "TKN", "net")];
            && AvailableTokens(MarkAdded(s, "0xabc"), "net") == AvailableTokens(s, "net")
            && |AvailableTokens(MarkAdded(s, "0xabc"), "net")| == 2
  {
  }

  // ---------------------------------------------------------------------
  // deleteToken, corrected: it clears `isAdded`

  /** Clears `isAdded` on the first record with this address. */
  function RemoveToken(s: Store, address: string): (r: Store)
    ensures |r| == |s|
    ensures forall j :: 0 <= j < |s| ==> r[j] == s[j].(isAdded := r[j].isAdded)
  {
    match FirstWhere(s, AddressIs(address))
    case None => s
    case Some(i) => s[i := s[i].(isAdded := false)]
  }

  /** After the corrected delete, on a store without duplicate addresses, no
      network lists a record with that address, every other listed record is
      still listed, and the selection is untouched. */
  lemma RemoveTokenUnlists(s: Store, address: string, url: string)
    requires UniqueAddresses(s)
    ensures var r := RemoveToken(s, address);
            && (forall x :: x in Fetch(r, OnNetwork(url)) ==> x.address != Some(address))
            && (forall j :: 0 <= j < |s| && Holds(s[j], OnNetwork(url)) && s[j].address != Some(address) ==>
                  s[j] in Fetch(r, OnNetwork(url)))
            && CountWhere(r, Selected) == CountWhere(s, Selected)
  {
    var r := RemoveToken(s, address);
    match FirstWhere(s, AddressIs(address))
    case None =>
    case Some(i) =>
      CountUpdate(s, i, r[i], Selected);
      forall x | x in Fetch(r, OnNetwork(url))
        ensures x.address != Some(address)
      {
        assert x in r;
        var j :| 0 <= j < |r| && r[j] == x;
        if j != i {
          assert r[j] == s[j];
          UniqueAddressAt(s, i, j);
        }
      }
      forall j | 0 <= j < |s| && Holds(s[j], OnNetwork(url)) && s[j].address != Some(address)
        ensures s[j] in Fetch(r, OnNetwork(url))
      {
        assert j != i && r[j] == s[j];
        assert Holds(r[j], OnNetwork(url));
      }
  }

  // ---------------------------------------------------------------------
  // etherModel, selectedERC20Token, availableTokensList

  /** The built-in Ether entry; it counts as selected exactly when no stored
      record is. */
  function EtherModel(s: Store): (m: TokenModel)
    ensures m.name == "Ether" && m.address == "" && m.decimals == "18" && m.symbol == "Eth"
    ensures m.isSelected <==> forall j :: 0 <= j < |s| ==> !s[j].isSelected
  {
    var none := Fetch(s, Selected) == [];
    CountZero(s, Selected);
    TokenModel("Ether", "", "18", "Eth", none)
  }

  /** The first selected record as a model, or Ether when none is selected. */
  function SelectedToken(s: Store): (m: TokenModel)
    ensures m.isSelected
    ensures (forall j :: 0 <= j < |s| ==> !s[j].isSelected) ==> m == EtherModel(s)
    ensures forall j :: 0 <= j < |s| && s[j].isSelected && (forall i :: 0 <= i < j ==> !s[i].isSelected) ==>
              m == ModelOf(s[j])
  {
    match FirstWhere(s, Selected)
    case None => EtherModel(s)
    case Some(i) => ModelOf(s[i])
  }

  /** Adding a token and then asking for the selected token gives back the
      added token, when the store was consistent. */
  lemma AddThenSelected(s: Store, address: string, name: string, decimals: string,
                        symbol: string, network: string)
    requires AtMostOneSelected(s)
    ensures SelectedToken(AddToken(s, address, name, decimals, symbol, network))
         == TokenModel(name, address, decimals, symbol, true)
  {
    AddTokenPlacement(s, address, name, decimals, symbol, network);
    AddTokenSelectsOnlyIt(s, address, name, decimals, symbol, network);
    ModelOfStoredRecord(address, name, decimals, symbol, network);
  }

  function ModelsOf(rs: seq<TokenRecord>): (ms: seq<TokenModel>)
    ensures |ms| == |rs|
    ensures forall k :: 0 <= k < |rs| ==> ms[k] == ModelOf(rs[k])
  {
    seq(|rs|, k requires 0 <= k < |rs| => ModelOf(rs[k]))
  }

  /** Extending the scanned prefix of the store by one record extends the
      mapped fetch by that record's model exactly when it satisfies `f`. */
  lemma ModelsOfFetchStep(s: Store, i: nat, f: Filter)
    requires i < |s|
    ensures ModelsOf(Fetch(s[..i + 1], f))
         == ModelsOf(Fetch(s[..i], f)) + (if Holds(s[i], f) then [ModelOf(s[i])] else [])
  {
    assert s[..i + 1] == s[..i] + [s[i]];
    FetchAppend(s[..i], [s[i]], f);
    var a, b := Fetch(s[..i], f), Fetch([s[i]], f);
    assert [s[i]][1..] == [];
    assert ModelsOf(a + b) == ModelsOf(a) + ModelsOf(b);
  }

  /** Ether first, then the added records of the given network, in store order. */
  function AvailableTokens(s: Store, network: string): (list: seq<TokenModel>)
    ensures |list| == 1 + CountWhere(s, OnNetwork(network))
    ensures list[0] == EtherModel(s)
  {
    [EtherModel(s)] + ModelsOf(Fetch(s, OnNetwork(network)))
  }

  /** The Ether entry heading the token list is selected exactly when no
      stored record is. */
  lemma AvailableTokensShape(s: Store, network: string)
    ensures AvailableTokens(s, network)[0].isSelected <==> CountWhere(s, Selected) == 0
  {
    CountZero(s, Selected);
  }

  /** Each entry after the head is an added record of the network, and every
      such record is listed. */
  lemma AvailableTokensExact(s: Store, network: string)
    ensures forall m :: m in AvailableTokens(s, network)[1..] ==>
              exists j :: 0 <= j < |s| && Holds(s[j], OnNetwork(network)) && m == ModelOf(s[j])
    ensures forall j :: 0 <= j < |s| && Holds(s[j], OnNetwork(network)) ==>
              ModelOf(s[j]) in AvailableTokens(s, network)[1..]
  {
    var list := AvailableTokens(s, network);
    var fetched := Fetch(s, OnNetwork(network));
    assert list[1..] == ModelsOf(fetched);
    forall m | m in list[1..]
      ensures exists j :: 0 <= j < |s| && Holds(s[j], OnNetwork(network)) && m == ModelOf(s[j])
    {
      var k :| 0 <= k < |fetched| && m == ModelOf(fetched[k]);
      assert fetched[k] in fetched;
      var j :| 0 <= j < |s| && s[j] == fetched[k];
      assert Holds(s[j], OnNetwork(network)) && m == ModelOf(s[j]);
    }
    forall j | 0 <= j < |s| && Holds(s[j], OnNetwork(network))
      ensures ModelOf(s[j]) in list[1..]
    {
      var k :| 0 <= k < |fetched| && fetched[k] == s[j];
      assert list[1..][k] == ModelOf(s[j]);
    }
  }

  /** The token list keeps store order: the list built from the first `i`
      records is a prefix of the list built from all of them. */
  lemma AvailableTokensOrder(s: Store, network: string, i: nat)
    requires i <= |s|
    ensures ModelsOf(Fetch(s[..i], OnNetwork(network))) <= AvailableTokens(s, network)[1..]
  {
    assert s == s[..i] + s[i..];
    FetchAppend(s[..i], s[i..], OnNetwork(network));
  }

  /** A freshly added token shows up in the token list of its network. */
  lemma AddThenAvailable(s: Store, address: string, name: string, decimals: string,
                         symbol: string, network: string)
    ensures TokenModel(name, address, decimals, symbol, true)
            in AvailableTokens(AddToken(s, address, name, decimals, symbol, network), network)[1..]
  {
    var r := AddToken(s, address, name, decimals, symbol, network);
    AddTokenPlacement(s, address, name, decimals, symbol, network);
    var k := AddIndex(s, address);
    assert Holds(r[k], OnNetwork(network));
    AvailableTokensExact(r, network);
    ModelOfStoredRecord(address, name, decimals, symbol, network);
  }

  // ---------------------------------------------------------------------
  // searchForCustomToken and its online fallback

  datatype CustomTokenError = UndefinedError

  /** `SendEthResult`: a value or an error. */
  datatype SendEthResult<T> = Success(value: T) | Error(error: CustomTokenError)

  /** The join of the online search. A lookup that failed left its variable
      at "" (name, symbol) or 0 (decimals); the search fails when the address
      is not an Ethereum address or when name or symbol is still empty. */
  function OnlineSearch(address: string, isValidAddress: bool, name: Option<string>,
                        decimals: Option<nat>, symbol: Option<string>): (r: SendEthResult<TokenModel>)
    ensures r.Success? <==> isValidAddress && name.Some? && name.value != ""
                            && symbol.Some? && symbol.value != ""
    ensures r.Success? ==> r.value.name == name.value && r.value.symbol == symbol.value
    ensures r.Success? ==> r.value.address == address && !r.value.isSelected
    ensures r.Success? ==> IsDigits(r.value.decimals) && Parse(r.value.decimals) == decimals.GetOr(0)
  {
    if !isValidAddress then Error(UndefinedError)
    else
      var gotName := name.GetOr("");
      var gotDecimals := decimals.GetOr(0);
      var gotSymbol := symbol.GetOr("");
      if gotName == "" || gotSymbol == "" then Error(UndefinedError)
      else
        ParseRender(gotDecimals);
        Success(TokenModel(gotName, address, Render(gotDecimals), gotSymbol, false))
  }

  /** The first stored record the query matches, as an unselected model. */
  function LocalSearch(s: Store, query: string): (m: Option<TokenModel>)
    ensures m.Some? <==> exists j :: 0 <= j < |s| && Holds(s[j], Matching(query))
    ensures m.Some? ==> !m.value.isSelected
  {
    match FirstWhere(s, Matching(query))
    case None => None
    case Some(i) => Some(ModelOf(s[i]).(isSelected := false))
  }

  /** A local hit wins; otherwise the online search decides. */
  function SearchForToken(s: Store, query: string, isValidAddress: bool, name: Option<string>,
                          decimals: Option<nat>, symbol: Option<string>): (r: SendEthResult<TokenModel>)
    ensures r.Success? ==> !r.value.isSelected
    ensures (exists j :: 0 <= j < |s| && s[j].address == Some(query)) ==> r.Success?
  {
    match LocalSearch(s, query)
    case Some(m) => Success(m)
    case None => OnlineSearch(query, isValidAddress, name, decimals, symbol)
  }

  /** What the search answers: a local hit is the first matching record;
      without one the answer is the online search's. */
  lemma SearchOutcome(s: Store, query: string, isValidAddress: bool, name: Option<string>,
                      decimals: Option<nat>, symbol: Option<string>)
    ensures var r := SearchForToken(s, query, isValidAddress, name, decimals, symbol);
            && (forall j :: 0 <= j < |s| && Holds(s[j], Matching(query)) ==>
                  (forall i :: 0 <= i < j ==> !Holds(s[i], Matching(query))) ==>
                  r == Success(ModelOf(s[j]).(isSelected := false)))
            && ((forall j :: 0 <= j < |s| ==> !Holds(s[j], Matching(query))) ==>
                  r == OnlineSearch(query, isValidAddress, name, decimals, symbol))
  {
  }

  /** The precedence of the search predicate: a selected record is found only
      through its address or its name, an unselected one also through its
      symbol. */
  lemma SelectedSymbolIgnored(r: TokenRecord, query: string)
    ensures r.isSelected ==>
              (Holds(r, Matching(query)) <==>
                 r.address == Some(query) || (r.name.Some? && ContainsIgnoringCase(r.name.value, query)))
    ensures !r.isSelected && r.symbol.Some? && ContainsIgnoringCase(r.symbol.value, query) ==>
              Holds(r, Matching(query))
  {
  }
}
