/** The persisted token record (the `ERC20Token` entity) and the value
    object `ERC20TokenModel` handed to the user interface. */
module TokenModels {
  import opened Wrappers

  /** One stored token. The string attributes are optional in the store;
      the two flags are plain booleans. */
  datatype TokenRecord = TokenRecord(
    address: Option<string>,
    name: Option<string>,
    symbol: Option<string>,
    decimals: Option<string>,
    isAdded: bool,
    isSelected: bool,
    networkURL: Option<string>)

  /** `ERC20TokenModel`; its memberwise initialiser is the constructor. */
  datatype TokenModel = TokenModel(
    name: string,
    address: string,
    decimals: string,
    symbol: string,
    isSelected: bool)

  /** A record as the store hands out a newly created object: no attribute set. */
  const BlankRecord := TokenRecord(None, None, None, None, false, false, None)

  /** `ERC20TokenModel(token:)`: each missing string becomes "", the
      selection flag is copied. */
  function ModelOf(r: TokenRecord): (m: TokenModel)
    ensures r.name.Some? ==> m.name == r.name.value
    ensures r.name.None? ==> m.name == ""
    ensures r.address.Some? ==> m.address == r.address.value
    ensures r.address.None? ==> m.address == ""
    ensures r.decimals.Some? ==> m.decimals == r.decimals.value
    ensures r.decimals.None? ==> m.decimals == ""
    ensures r.symbol.Some? ==> m.symbol == r.symbol.value
    ensures r.symbol.None? ==> m.symbol == ""
    ensures m.isSelected == r.isSelected
  {
    TokenModel(r.name.GetOr(""), r.address.GetOr(""), r.decimals.GetOr(""),
               r.symbol.GetOr(""), r.isSelected)
  }

  /** The record `addNewCustomToken` leaves behind for these arguments. */
  function StoredRecord(address: string, name: string, decimals: string,
                        symbol: string, network: string): TokenRecord
  {
    TokenRecord(Some(address), Some(name), Some(symbol), Some(decimals),
                true, true, Some(network))
  }

  /** Storing a token and reading it back gives the arguments back, selected. */
  lemma ModelOfStoredRecord(address: string, name: string, decimals: string,
                            symbol: string, network: string)
    ensures ModelOf(StoredRecord(address, name, decimals, symbol, network))
         == TokenModel(name, address, decimals, symbol, true)
  {
  }
}
