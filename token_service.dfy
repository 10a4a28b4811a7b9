/** `CustomERC20TokensServiceImplementation`: the service object over the
    token store. The store is the ordered sequence `records`; each fetch
    the service issues is `FetchFirst`, and each operation writes the
    records it fetched back in place. */
module TokenService {
  import opened Wrappers
  import opened TokenModels
  import opened TokenFetch
  import opened TokenRegistry

  class CustomERC20TokensService {
    var records: seq<TokenRecord>

    /** The invariant the service maintains by hand. */
    ghost predicate Valid()
      reads this
    {
      Consistent(records)
    }

    /** Attaches the service to the persisted store, whatever it holds. */
    constructor (stored: seq<TokenRecord>)
      ensures records == stored
    {
      records := stored;
    }

    /** The `.first` of a fetch: the lowest index whose record satisfies `f`. */
    method FetchFirst(f: Filter) returns (found: Option<nat>)
      ensures found == FirstWhere(records, f)
      ensures found.Some? ==> found.value < |records| && Holds(records[found.value], f)
    {
      var i := 0;
      while i < |records|
        invariant i <= |records|
        invariant forall j :: 0 <= j < i ==> !Holds(records[j], f)
      {
        if Holds(records[i], f) {
          var w := FirstWhere(records, f);
          assert w.Some? && !(w.value < i) && !(i < w.value);
          return Some(i);
        }
        i := i + 1;
      }
      return None;
    }

    /** `resetSelectedToken`. */
    method ResetSelectedToken()
      modifies this
      ensures records == ClearSelection(old(records))
      ensures old(Valid()) ==> Valid() && CountWhere(records, Selected) == 0
    {
      var found := FetchFirst(Selected);
      if found.Some? {
        var i := found.value;
        records := records[i := records[i].(isSelected := false)];
      }
      if Consistent(old(records)) {
        ClearSelectionEmpties(old(records));
      }
    }

    /** `addNewCustomToken`; `network` is the preferred network's URL. The
        reset runs to completion before the upsert starts. */
    method AddNewCustomToken(address: string, name: string, decimals: string,
                             symbol: string, network: string)
      modifies this
      ensures records == AddToken(old(records), address, name, decimals, symbol, network)
      ensures old(Valid()) ==> Valid()
    {
      ResetSelectedToken();
      var found := FetchFirst(AddressIs(address));
      var token := if found.Some? then records[found.value] else BlankRecord;
      token := token.(address := Some(address), name := Some(name), symbol := Some(symbol),
                      decimals := Some(decimals), isAdded := true, isSelected := true,
                      networkURL := Some(network));
      if found.Some? {
        records := records[found.value := token];
      } else {
        records := records + [token];
      }
      if Consistent(old(records)) {
        AddTokenKeepsConsistent(old(records), address, name, decimals, symbol, network);
      }
    }

    /** `updateSelectedToken(to:)`. */
    method UpdateSelectedToken(token: string)
      modifies this
      ensures records == UpdateSelection(old(records), token)
      ensures old(Valid()) ==> Valid()
    {
      if Consistent(records) {
        UpdateSelectionKeepsConsistent(records, token);
      }
      if token == "" {
        ResetSelectedToken();
        return;
      }
      var target := FetchFirst(AddressIs(token));
      if target.None? {
        return;
      }
      var n := target.value;
      var current := FetchFirst(Selected);
      if current.Some? {
        var o := current.value;
        records := records[o := records[o].(isSelected := false)];
      }
      records := records[n := records[n].(isSelected := true)];
    }

    /** `deleteToken(with:)`, as the source has it: the first record with
        this address gets `isAdded` set to true. */
    method DeleteToken(address: string)
      modifies this
      ensures records == MarkAdded(old(records), address)
      ensures old(Valid()) ==> Valid()
    {
      MarkAddedChangesOnlyIsAdded(records, address);
      var found := FetchFirst(AddressIs(address));
      if found.Some? {
        var i := found.value;
        records := records[i := records[i].(isAdded := true)];
      }
    }

    /** `selectedERC20Token`. */
    method SelectedERC20Token() returns (m: TokenModel)
      ensures m == SelectedToken(records)
    {
      var found := FetchFirst(Selected);
      if found.None? {
        m := EtherModel(records);
      } else {
        m := ModelOf(records[found.value]);
      }
    }

    /** `availableTokensList`; `network` is the preferred network's URL. */
    method AvailableTokensList(network: string) returns (list: seq<TokenModel>)
      ensures list == AvailableTokens(records, network)
    {
      var selected := FetchFirst(Selected);
      list := [TokenModel("Ether", "", "18", "Eth", selected.None?)];
      var stored := records;
      var i := 0;
      while i < |stored|
        invariant i <= |stored|
        invariant |list| >= 1 && list[0] == EtherModel(stored)
        invariant list[1..] == ModelsOf(Fetch(stored[..i], OnNetwork(network)))
      {
        ModelsOfFetchStep(stored, i, OnNetwork(network));
        var token := stored[i];
        if token.networkURL == Some(network) && token.isAdded {
          var model := TokenModel(token.name.GetOr(""), token.address.GetOr(""),
                                  token.decimals.GetOr(""), token.symbol.GetOr(""), token.isSelected);
          assert model == ModelOf(token);
          assert (list + [model])[1..] == list[1..] + [model];
          list := list + [model];
        }
        i := i + 1;
      }
      assert stored[..i] == stored;
      assert list == [list[0]] + list[1..];
    }

    /** `searchForCustomToken(with:)`. The online search receives whether the
        query is an Ethereum address and the three lookups' outcomes. */
    method SearchForCustomToken(query: string, isValidAddress: bool, name: Option<string>,
                                decimals: Option<nat>, symbol: Option<string>)
      returns (r: SendEthResult<TokenModel>)
      ensures r == SearchForToken(records, query, isValidAddress, name, decimals, symbol)
    {
      var found := FetchFirst(Matching(query));
      if found.Some? {
        var token := records[found.value];
        r := Success(TokenModel(token.name.GetOr(""), token.address.GetOr(""),
                                token.decimals.GetOr(""), token.symbol.GetOr(""), false));
      } else {
        r := OnlineSearch(query, isValidAddress, name, decimals, symbol);
      }
    }
  }
}
