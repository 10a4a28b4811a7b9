# Custom ERC-20 token registry of the Bankex wallet, in Dafny

The iOS wallet keeps the user's custom ERC-20 tokens in a Core Data store.
`CustomERC20TokensServiceImplementation` manages that store. It can add a
token (an upsert by address that also selects the token) and move or clear
the selection. It has a "delete" operation. It answers which token is
selected, and lists the tokens of the current network, with a built-in
"Ether" entry first. It also searches for a token: first in the store, then
by querying the token contract online for name, decimals and symbol. The
service is meant to keep at most one token selected at any time.

This project models that service:

- `wrappers.dfy`: `Option`, for Swift optionals and for remote lookups
  whose errors are swallowed.
- `decimal_text.dfy`: base-10 rendering of an unsigned integer (what
  `BigUInt.description` produces), with its parse and a round-trip proof.
- `text_match.dfy`: the case-insensitive substring test behind
  `CONTAINS[c]`.
- `token_models.dfy`: the stored record (`ERC20Token`) and the value
  object `ERC20TokenModel`.
- `token_fetch.dfy`: the store's fetch requests. Each predicate the
  service builds is a `Filter`. `.first` of a fetch is `FirstWhere`. A
  whole fetch is `Fetch`, which keeps store order.
- `token_registry.dfy`: one function per service operation over the store
  contents, and the lemmas about them. These cover the single-selection
  invariant, the upsert's placement, the round trips (add, then ask for
  the selected token or the token list), the search's fallback rule and
  the online join.
- `token_service.dfy`: the service as a class. It holds the store as the
  ordered sequence `records`. Its methods fetch by scanning and write the
  fetched records back in place. Each is proved equal to the matching
  registry function.

The store is consistent when at most one record is selected and no two
records share an address. Every mutating operation keeps the store
consistent. The "only selected record" guarantees of adding and selecting
hold only for a store with at most one selected record: a reset clears only
the first selected record.

## Model

| member | source | states |
|---|---|---|
| `TokenModels.ModelOf` | BankexWallet/ServiceLayer/CustomERC20TokensService.swift:21-27 | every missing string attribute of a stored record becomes "", present ones are copied, the selection flag is copied |
| `TokenModels.ModelOfStoredRecord` | BankexWallet/ServiceLayer/CustomERC20TokensService.swift:103-109 | a record written by an add reads back as the add's arguments, selected |
| `TextMatch.ContainsIffOccurs` | BankexWallet/ServiceLayer/CustomERC20TokensService.swift:187 | the recursive substring test holds exactly when the needle occurs at some position of the text |
| `TextMatch.ContainsIgnoringCase` | BankexWallet/ServiceLayer/CustomERC20TokensService.swift:187 | `CONTAINS[c]` holds exactly when the needle is non-empty and its lower-cased form occurs at some position of the lower-cased text |
| `DecimalText.Render` | BankexWallet/ServiceLayer/CustomERC20TokensService.swift:176 | the decimals text is non-empty, all digits, and has no leading zero unless it is "0" |
| `DecimalText.ParseRender` | BankexWallet/ServiceLayer/CustomERC20TokensService.swift:176 | the decimals text reads back as the number it was made from |
| `DecimalText.RenderInjective` | BankexWallet/ServiceLayer/CustomERC20TokensService.swift:176 | different decimals never render to the same text |
| `TokenFetch.FirstWhere` | BankexWallet/ServiceLayer/CustomERC20TokensService.swift:79 | `.first` of a fetch: the returned record satisfies the predicate and no earlier one does; none means no record does |
| `TokenFetch.Holds` | BankexWallet/ServiceLayer/CustomERC20TokensService.swift:187 | the fetch predicates: the search predicate holds exactly when the address equals the query, or the name contains it ignoring case, or the symbol contains it ignoring case and the record is not selected; a record on a network's list is added and its network URL is that network |
| `TokenFetch.Fetch` | BankexWallet/ServiceLayer/CustomERC20TokensService.swift:286 | a fetch returns only stored records satisfying the predicate, all of them, as many as `CountWhere` counts |
| `TokenFetch.FetchAppend` | BankexWallet/ServiceLayer/CustomERC20TokensService.swift:286 | fetching from two stretches of the store concatenates the answers, so a fetch keeps store order |
| `TokenFetch.CountOne` | BankexWallet/ServiceLayer/CustomERC20TokensService.swift:79 | when exactly one record satisfies a predicate, every other record fails it and the first-match fetch returns that one |
| `TokenRegistry.ClearSelection` | BankexWallet/ServiceLayer/CustomERC20TokensService.swift:79-83 | a reset changes only the selection flag of the first selected record, lowers the selected count by one if any was selected, and leaves a store without selection unchanged |
| `TokenRegistry.ClearSelectionEmpties` | BankexWallet/ServiceLayer/CustomERC20TokensService.swift:75-90 | on a consistent store, a reset leaves no record selected and the store consistent |
| `TokenRegistry.AddToken` | BankexWallet/ServiceLayer/CustomERC20TokensService.swift:92-117 | the upsert grows the store by one exactly when no record had the address; every record other than the stored token is as the reset left it |
| `TokenRegistry.AddTokenPlacement` | BankexWallet/ServiceLayer/CustomERC20TokensService.swift:96-111 | the added token replaces the first record with its address or is appended; the store grows by one only for a new address; the record holds the arguments, isAdded, the preferred network, and is selected; other records are as the reset left them |
| `TokenRegistry.AddTokenSelectsOnlyIt` | BankexWallet/ServiceLayer/CustomERC20TokensService.swift:94-108 | after adding to a store with at most one selection, the added token is the one and only selected record |
| `TokenRegistry.AddTokenKeepsConsistent` | BankexWallet/ServiceLayer/CustomERC20TokensService.swift:92-117 | adding keeps the store consistent, and the added token is then the only record with its address |
| `TokenRegistry.UpdateSelection` | BankexWallet/ServiceLayer/CustomERC20TokensService.swift:246-271 | changing the selection touches only selection flags; an empty address acts exactly as the reset, and an address no record has leaves the store unchanged |
| `TokenRegistry.UpdateSelectionKeepsSingleSelection` | BankexWallet/ServiceLayer/CustomERC20TokensService.swift:254-271 | on a store with at most one selection, all three cases (empty address, unknown address, known address) keep at most one selection, even with duplicate addresses; with a known address its record becomes the only selected one |
| `TokenRegistry.UpdateSelectionKeepsConsistent` | BankexWallet/ServiceLayer/CustomERC20TokensService.swift:246-271 | changing the selection keeps the store consistent, unique addresses included |
| `TokenRegistry.MarkAddedChangesOnlyIsAdded` | BankexWallet/ServiceLayer/CustomERC20TokensService.swift:218-224 | delete as written removes no record, changes no selection and no address, only isAdded, and keeps the store consistent |
| `TokenRegistry.MarkAddedKeepsListed` | BankexWallet/ServiceLayer/CustomERC20TokensService.swift:221-222 | every record on a network's token list is still on it after delete as written |
| `TokenRegistry.DeleteLeavesTokenListed` | BankexWallet/ServiceLayer/CustomERC20TokensService.swift:221-222 | on a one-token store, deleting the token leaves the token list unchanged, still two entries |
| `TokenRegistry.MarkAdded` | BankexWallet/ServiceLayer/CustomERC20TokensService.swift:218-224 | delete as written keeps every record; a record ends up added exactly when it was added before or is the first one with the address |
| `TokenRegistry.RemoveToken` | BankexWallet/ServiceLayer/CustomERC20TokensService.swift:218-224 | corrected delete: keeps every record and changes nothing but isAdded |
| `TokenRegistry.RemoveTokenUnlists` | BankexWallet/ServiceLayer/CustomERC20TokensService.swift:286 | after the corrected delete no network lists a record with that address, every other listed record stays listed, and the selection is unchanged |
| `TokenRegistry.EtherModel` | BankexWallet/ServiceLayer/CustomERC20TokensService.swift:298-302 | the Ether entry is named "Ether", symbol "Eth", 18 decimals, empty address, and is selected exactly when no stored record is |
| `TokenRegistry.SelectedToken` | BankexWallet/ServiceLayer/CustomERC20TokensService.swift:234-244 | the answer is always marked selected; it is Ether when no record is selected, otherwise the first selected record with missing fields as "" |
| `TokenRegistry.AddThenSelected` | BankexWallet/ServiceLayer/CustomERC20TokensService.swift:236-243 | on a store with at most one selection, asking for the selected token after an add returns exactly the added name, address, decimals and symbol |
| `TokenRegistry.AvailableTokens` | BankexWallet/ServiceLayer/CustomERC20TokensService.swift:284-296 | the token list has one entry more than there are added records of the network, and its head is the Ether entry (name "Ether", address "", decimals "18", symbol "Eth", selected exactly when no stored record is) |
| `TokenRegistry.AvailableTokensShape` | BankexWallet/ServiceLayer/CustomERC20TokensService.swift:298-301 | the Ether entry heading the token list is selected exactly when no stored record is |
| `TokenRegistry.AvailableTokensExact` | BankexWallet/ServiceLayer/CustomERC20TokensService.swift:286-294 | every entry after the head comes from an added record of the network, and every such record is listed |
| `TokenRegistry.AvailableTokensOrder` | BankexWallet/ServiceLayer/CustomERC20TokensService.swift:286-288 | the list keeps store order: the entries from the first i records form a prefix |
| `TokenRegistry.AddThenAvailable` | BankexWallet/ServiceLayer/CustomERC20TokensService.swift:285-294 | a freshly added token appears, selected, in the token list of its network |
| `TokenRegistry.OnlineSearch` | BankexWallet/ServiceLayer/CustomERC20TokensService.swift:120-179 | the online search succeeds exactly when the address is valid and both name and symbol lookups gave non-empty text; the result carries the queried address, those values, unselected, and decimals text that reads back as the looked-up decimals, or 0 when that lookup failed |
| `TokenRegistry.LocalSearch` | BankexWallet/ServiceLayer/CustomERC20TokensService.swift:186-195 | a local hit exists exactly when some record matches the search predicate, and it is returned unselected |
| `TokenRegistry.SearchForToken` | BankexWallet/ServiceLayer/CustomERC20TokensService.swift:184-209 | a found token is never marked selected, and a stored address is always found locally, whatever the online lookups give |
| `TokenRegistry.SearchOutcome` | BankexWallet/ServiceLayer/CustomERC20TokensService.swift:184-209 | a local hit is the first matching record, returned unselected; without one the answer is the online search's |
| `TokenRegistry.SelectedSymbolIgnored` | BankexWallet/ServiceLayer/CustomERC20TokensService.swift:187 | `&&` binds tighter than `\|\|`: a selected record matches only through its address or name, an unselected one also through its symbol |
| `TokenService.CustomERC20TokensService.constructor` | BankexWallet/ServiceLayer/CustomERC20TokensService.swift:213-216 | the service starts on the persisted store as it is |
| `TokenService.CustomERC20TokensService.FetchFirst` | BankexWallet/ServiceLayer/CustomERC20TokensService.swift:79 | the scan returns the index `FirstWhere` specifies |
| `TokenService.CustomERC20TokensService.ResetSelectedToken` | BankexWallet/ServiceLayer/CustomERC20TokensService.swift:75-90 | the new store is `ClearSelection` of the old one; consistency is kept and nothing is selected afterwards |
| `TokenService.CustomERC20TokensService.AddNewCustomToken` | BankexWallet/ServiceLayer/CustomERC20TokensService.swift:92-117 | the new store is `AddToken` of the old one; consistency is kept |
| `TokenService.CustomERC20TokensService.UpdateSelectedToken` | BankexWallet/ServiceLayer/CustomERC20TokensService.swift:246-281 | the new store is `UpdateSelection` of the old one; consistency is kept |
| `TokenService.CustomERC20TokensService.DeleteToken` | BankexWallet/ServiceLayer/CustomERC20TokensService.swift:218-229 | the new store is `MarkAdded` of the old one, as written; consistency is kept |
| `TokenService.CustomERC20TokensService.SelectedERC20Token` | BankexWallet/ServiceLayer/CustomERC20TokensService.swift:234-244 | returns `SelectedToken` of the store |
| `TokenService.CustomERC20TokensService.AvailableTokensList` | BankexWallet/ServiceLayer/CustomERC20TokensService.swift:284-296 | the scan that puts Ether first and then maps each added record of the preferred network, in store order, returns `AvailableTokens` of the store |
| `TokenService.CustomERC20TokensService.SearchForCustomToken` | BankexWallet/ServiceLayer/CustomERC20TokensService.swift:184-209 | returns `SearchForToken` of the store for the query and the online outcomes |

## Left out

- Core Data and SugarRecord (`DBStorage`, `db.operation`, `save()`): the store is a sequence of records held by the service. A fetch is a scan for the first matching index, or a filter. Errors thrown by the store are not modelled. That covers the `catch` branch of `searchForCustomToken`, which falls back to the online search, and the crashes of `try!`.
- Store order: a fetch without sort descriptors has no defined order in Core Data. The model takes the order of the sequence.
- Concurrency: every operation runs to completion before the next starts. In the source, `resetSelectedToken` is dispatched asynchronously from `addNewCustomToken` (line 94). The reset can therefore run after the upsert and clear the token just selected. The model does not capture that race. Adding is not transactional either: the reset and the upsert are saved by separate store operations (lines 83 and 111). A crash between them can leave the old selection cleared and the new token not stored, so nothing is selected. The model treats each operation as atomic.
- TokenRegistry.AddTokenSelectsOnlyIt: assumes at most one record was selected before the add. On a store with two selected records the reset clears only the first one, so the source itself then leaves two selected.
- Remote calls: the three `tokensUtilService` lookups become parameters of type `Option` (`None` = the lookup failed). Whether a string is a valid `EthereumAddress` is a boolean parameter. The preferred network's URL is a string parameter.
- `CONTAINS[c]`: case folding covers ASCII letters only; Unicode case folding is not modelled. An empty query contains-matches nothing, as in Foundation's substring search.
- The `NotificationCenter` posts of `updateSelectedToken`: user-interface signalling, no effect on the store.
- The main-queue hops that deliver results: the model returns the result.
- The other files (TransactionsHistoryController.swift, TransactionsHistoryPresenter.swift, FavouritesListWithCollectionCell.swift, AddressQRCodeController.swift, Constants.swift): view toggling, segue routing, collection-view data sources, QR rendering and constants. None of them touches the token store.

## Findings

| source | as written | input that shows it | evidently intended | confidence | as-written member | corrected member |
|---|---|---|---|---|---|---|
| BankexWallet/ServiceLayer/CustomERC20TokensService.swift:218-224 | `deleteToken` sets `isAdded = true` on the record it finds | a store holding one added token `0xabc` on network `net`; after `deleteToken("0xabc")` the token list for `net` is still Ether plus that token | set `isAdded = false`, so that the token leaves the network's token list | medium, not executed | `TokenRegistry.DeleteLeavesTokenListed` | `TokenRegistry.RemoveTokenUnlists` |

The service class keeps the delete as written (`DeleteToken` is `MarkAdded`).
`RemoveToken` is the corrected definition. `RemoveTokenUnlists` proves that
with it, on a store without duplicate addresses, the deleted token leaves
every network's list and nothing else changes.
