# Licensing dapp front end: a Dafny model of its client-side logic

The repository is a Next.js/React front end for an on-chain licensing
catalogue and an NFT staking card. The contracts themselves live elsewhere.
This project models the page's own logic in the licence card, the NFT card
and the home page; what it leaves out is listed at the end:

- **The licence-name codec** (`HexName`, `hex_name.dfy`). A licence name is a
  `bytes32` that reaches the card as `"0x"` and 64 hex digits. `hex2a` walks it
  two characters at a time and appends the character of every chunk whose
  value is neither zero nor `NaN`. `Hex2a` is that loop, proved equal to the
  specification function `Decode`. Lemmas about `Decode` give:
  - the output exactly, chunk by chunk;
  - that it never holds NUL;
  - a length bound;
  - that the `0x` prefix and zero padding add nothing;
  - the round trip with `FormatBytes32`, the bytes32 layout written when a
    licence is created.
- **The NFT card** (`Staking`, `staking.dfy`). `WithStaked` is the list update
  handed to `setNfts`, with lemmas for what changes, what does not,
  idempotence and last-write-wins. `Buttons` is the STAKE/UNSTAKE guard.
  The class `Gallery` holds the NFT list behind the card's `setNfts`
  together with a log of
  contract calls and a log of toasts. Its `Stake` and `Unstake` methods are
  the two click handlers. Each awaited step is given as a parameter saying
  how that step settles.
- **The home page** (`Home`, `home.dfy`). `Held` is the licensee filter that
  drops token id 0. `GetExpiration` reads the last cycle's end.
  `OwnerMatches` is the owner check. `CatalogueBuy` and `Renewal` build the
  arguments a BUY button passes. The class `HomePage` holds the page state
  (`isLoading`, `licenses`, `licensees`, `isOwner`) and a call log. Its
  methods are `loadLicenses`, `addLicense`, `buyLicense` and `checkOwner`.
  Its invariant is that the stored licensee list never holds token id 0.
- `Text` (`text.dfy`) holds the ASCII lower-casing used by both owner checks.
- `Results` (`results.dfy`) holds `Option` and `Reply`. A `Reply` is the
  settled state of an awaited contract call.

Error handling follows the code. The NFT handlers catch failures, toast the
reason when one is present and return before touching the list. Unlike the NFT
card's handlers, the home page's `loadLicenses`, `addLicense` and
`buyLicense` have no `catch`. A rejected call, or a conversion that throws
before a call, ends the function with `isLoading` still true and the lists
as they were.

## Model

| member | source | states |
|---|---|---|
| `Text.Lower` | frontend/src/components/NFT.jsx:10 | `toLowerCase` keeps the length, maps each character on its own and leaves no upper-case letter |
| `Text.SameIgnoringCaseProperties` | frontend/src/components/NFT.jsx:10 | comparing lower-cased strings is reflexive, symmetric and transitive, and does not notice a case change on either side |
| `HexName.ParseChunk` | frontend/src/components/License.jsx:8 | for a chunk of a hex name (`"0x"` or hex digits), `parseInt(chunk, 16)` is a number exactly when every character of the chunk is a hex digit, and then it is the chunk's base-16 value, below 256 |
| `HexName.Decode` | frontend/src/components/License.jsx:4-11 | the text `hex2a` returns, chunk by chunk; what it is is stated by `Hex2a` and by `DecodeCharacterized`, `DecodeHasNoNul` and `DecodeLength` |
| `HexName.Hex2a` | frontend/src/components/License.jsx:4-11 | the loop over `i += 2` returns exactly `Decode(hex)` |
| `HexName.DecodeCharacterized` | frontend/src/components/License.jsx:7-9 | the k-th output character has the value of the k-th non-zero, non-NaN chunk at an even offset; these offsets increase, so characters keep their chunks' order, and none is missed |
| `HexName.DecodeHasNoNul` | frontend/src/components/License.jsx:8-9 | no output character is NUL, because zero chunks are skipped |
| `HexName.DecodeLength` | frontend/src/components/License.jsx:7 | the output has at most ⌈len/2⌉ characters |
| `HexName.DecodeAppend` | frontend/src/components/License.jsx:7-9 | splitting the input after an even number of characters splits the output at the matching place |
| `HexName.DecodeSkipsPrefix` | frontend/src/components/License.jsx:8 | the leading `"0x"` chunk contributes no character |
| `HexName.DecodeIgnoresPadding` | frontend/src/components/License.jsx:8 | appending any number of `"00"` chunks after whole bytes leaves the output unchanged |
| `HexName.FormatBytes32` | frontend/src/pages/index.jsx:38 | `formatBytes32String` throws when the name has more than 31 bytes; otherwise it gives a 66-character `"0x"`+hex string |
| `HexName.FormatBytes32IsHexName` | frontend/src/pages/index.jsx:38 | what the page writes has the shape the card reads: `"0x"` followed by hex digits only |
| `HexName.DecodeFormatBytes32` | frontend/src/components/License.jsx:4-17 | decoding the bytes32 written for a name gives back the name's bytes as characters, with zero bytes dropped |
| `HexName.NameRoundTrip` | frontend/src/components/License.jsx:4-17 | an ASCII name of at most 31 characters with no NUL decodes back to itself; in general each non-zero byte comes back as the character with that code |
| `Staking.WithStaked` | frontend/src/components/NFT.jsx:28-38 | the `nfts.map(...)` updater keeps the list's length; its entries are stated by `WithStakedEntries` |
| `Staking.WithStakedEntries` | frontend/src/components/NFT.jsx:28-38 | the update keeps length and order, returns other tokens' entries unchanged, and gives the matching entries the new `isStaked` with every other field copied |
| `Staking.WithStakedIdempotent` | frontend/src/components/NFT.jsx:28-38 | applying the same update twice equals applying it once |
| `Staking.WithStakedLastWins` | frontend/src/components/NFT.jsx:51-61 | unstake's update is stake's with `false`; after two updates of one token, the later one decides |
| `Staking.WithStakedCommutes` | frontend/src/components/NFT.jsx:28-38 | updates of two different tokens commute |
| `Staking.IsOwner` | frontend/src/components/NFT.jsx:10 | the card's test is equality ignoring case, so addresses of different lengths never match; its case behaviour is stated by `IsOwnerIgnoresCase` |
| `Staking.IsOwnerIgnoresCase` | frontend/src/components/NFT.jsx:10 | the card's ownership test ignores letter case on both sides and is symmetric |
| `Staking.Buttons` | frontend/src/components/NFT.jsx:92-107 | with no account (`null`) the card throws on line 10 and renders nothing; otherwise at most one of STAKE and UNSTAKE is shown, and one is shown exactly to the owner; STAKE only when not staked, UNSTAKE only when staked |
| `Staking.FailureToasts` | frontend/src/components/NFT.jsx:23 | a failure shows one toast exactly when it carries a non-empty reason, and that toast is an error toast carrying the reason |
| `Staking.Gallery.Stake` | frontend/src/components/NFT.jsx:12-39 | approve is sent first and stake only after approve succeeds; the success toast and the list update happen only when both succeed; any failure leaves the list as it was; a mined approval is logged before the stake; the log keeps every stake after a mined approval of the same token |
| `Staking.LogOtherCall` | frontend/src/components/NFT.jsx:14-21 | logging an approval, a mined approval or an unstake at any point, including between another card's approval and stake, keeps every stake after a mined approval of its token |
| `Staking.LogStakeAfterApproval` | frontend/src/components/NFT.jsx:14-21 | logging a stake keeps the invariant once the token's mined approval is in the log, however many calls of other cards came in between |
| `Staking.Gallery.Unstake` | frontend/src/components/NFT.jsx:41-62 | one unstake call; on success a toast and the update with `isStaked = false`; on failure the list is unchanged |
| `Home.Held` | frontend/src/pages/index.jsx:27 | the filtered licensee list has no entry with token id 0 and is no longer than its input |
| `Home.HeldMembership` | frontend/src/pages/index.jsx:27 | a record is kept if and only if it is in the input and its token id is not 0 |
| `Home.HeldCounts` | frontend/src/pages/index.jsx:27 | every record with a non-zero token id is kept as many times as it occurs |
| `Home.HeldAppend` | frontend/src/pages/index.jsx:27 | filtering keeps the original order: filtering a concatenation gives the concatenation of the filtered parts |
| `Home.HeldOfHeld` | frontend/src/pages/index.jsx:55 | a list with no token id 0 passes through the filter unchanged |
| `Home.HeldIdempotent` | frontend/src/pages/index.jsx:27 | filtering twice equals filtering once |
| `Home.GetExpiration` | frontend/src/pages/index.jsx:65-67 | there is a result exactly when `cycles` is non-empty; an empty list throws |
| `Home.ExpirationAfterRenewal` | frontend/src/pages/index.jsx:65-67 | after a cycle is added, the expiration is that cycle's `endTime` |
| `Home.ExpirationIsLatest` | frontend/src/pages/index.jsx:65-67 | for cycles in chronological order, the expiration is the latest `endTime` |
| `Home.OwnerMatches` | frontend/src/pages/index.jsx:47 | the lower-cased owner equals the account string, so addresses of different lengths never match; its case behaviour is stated by `OwnerMatchesCases` |
| `Home.OwnerMatchesCases` | frontend/src/pages/index.jsx:47 | only the owner side is lower-cased: an account with an upper-case letter never matches, and a lower-case account matches exactly the owner equal to it ignoring case |
| `Home.BuyRequestsDistinct` | frontend/src/pages/index.jsx:129-148 | BUY in the catalogue passes token 0, the entry's position and the entry itself; BUY on a listed held licence passes that record's own token, which is never 0, its stored index and its licence, and the record is one the account holds; so the two requests never coincide |
| `Home.HomePage.constructor` | frontend/src/pages/index.jsx:14-17 | the page starts not loading, with both lists empty and `isOwner` false; the licensee invariant holds from the start |
| `Home.HomePage.LoadLicenses` | frontend/src/pages/index.jsx:22-29 | both lists are replaced and `isLoading` ends false only when both calls resolve; otherwise `isLoading` stays true and nothing else changes; the stored licensees never include token id 0 |
| `Home.HomePage.AddLicense` | frontend/src/pages/index.jsx:31-43 | nothing is sent when the name does not fit 31 bytes or the price does not convert; otherwise the encoded name and the converted price are sent; only `licenses` is replaced, and only when every step succeeds; `licensees` is untouched; `isLoading` stays true on any failure |
| `Home.HomePage.BuyLicense` | frontend/src/pages/index.jsx:50-57 | nothing is sent when the price does not convert; otherwise the call carries the request's token id and licence index, 0 as the third argument and the converted value; only `licensees` is replaced, filtered, and only when every step succeeds; `licenses` is untouched; `isLoading` stays true on any failure |
| `Home.HomePage.CheckOwner` | frontend/src/pages/index.jsx:45-48 | `isOwner` becomes the owner comparison with `String(account)`, "null" when there is no account, when the call resolves; nothing else changes |

## Left out

- Wallet provider: `window.ethereum`, account requests, network and account
  listeners and page reloads (frontend/src/utils/common.js,
  frontend/src/pages/_app.jsx). They are I/O against code outside the
  repository.
- Contract calls: each call is represented only by how it settles (`Reply`),
  because the contracts are not part of this model.
- The `useEffect` hooks are not modelled. They run `loadLicenses` and
  `checkOwner` when the account changes. React's scheduling and `setState`
  batching are left out too.
- Wei and ether arithmetic is not modelled. It is floating point and string
  conversion; the balance division and `Intl.NumberFormat` in Balance.jsx
  are left out with it.
- `Home.HomePage.BuyLicense`: takes the result of
  `parseEther(String(license.price / EthInWei))` as a parameter, None where
  it throws. When the conversion throws is not derived from the price. For
  example, `String` writes a price under 10^12 wei in exponent notation,
  which `parseEther` rejects.
- `Home.HomePage.AddLicense`: takes the result of `parseUnits` on the form's
  price as a parameter in the same way, None where it throws.
- `moment.duration(...).humanize()` and every other piece of display
  formatting are not modelled.
- UTF-8 encoding of the form's name: `HomePage.AddLicense` takes the name's
  bytes. The text-to-UTF-8 step inside `formatBytes32String` is not modelled.
  `hex2a` does not decode UTF-8: it turns each byte into one character. A
  non-ASCII name is therefore shown garbled, e.g. "é" (bytes C3 A9) comes
  back as "Ã©".
- `HexName.ParseChunk`: exact only on chunks of a hex name. `parseInt` also
  reads a leading digit run, a sign or leading white space, so it gives 1 for
  `"1g"`, 10 for `" a"` and -1 for `"-1"`, where `ParseChunk` gives None.
- `HexName.Hex2a`: requires `"0x"` followed by hex digits, the shape of every
  `bytes32` value. `parseInt`'s partial parsing of other chunks (signs,
  whitespace, a digit followed by a non-digit) is not modelled.
- `Text.Lower`: lower-cases ASCII letters only. JavaScript's `toLowerCase`
  covers all of Unicode, but addresses are ASCII.
- `Home.HomePage.LoadLicenses`: states only the final `isLoading`, and
  likewise for `AddLicense` and `BuyLicense`. That the flag is true while a
  call is pending is not stated as a postcondition.
- `Staking.Gallery.Stake`: each handler runs as one atomic step. The page
  keeps STAKE enabled while a transaction is pending, so two cards' handlers
  can interleave at their awaits. The methods do not show that order of
  calls; `LogOtherCall` and `LogStakeAfterApproval` show that the log
  invariant holds for any interleaving of the individual steps.
- `Staking.Gallery.Stake`: the spender passed to `approve` (the staking
  contract address read from the environment) is not recorded in the log.
- The parent that renders the NFT card and keeps its `nfts` list is outside
  the repository. So are the `dcWarriorsContract` and `stakingContract` the
  card reads, which frontend/src/pages/_app.jsx does not provide. Without
  them, a click throws a TypeError with no `reason`, which is `Rejected("")`:
  no toast and no change.
- frontend/src/pages/mint.jsx is not modelled. It is one contract call with a
  busy flag.
- UI and framework code: JSX, Header.jsx, Layout.jsx, _document.jsx, toast.js
  configuration and contexts.js.
