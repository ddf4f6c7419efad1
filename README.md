# Case-insensitive path resolution over a validating LRU cache

This project models `src/fspath.rs` of webdav-handler. That code resolves a
client-supplied path, in whatever case the client sent it, against a
case-sensitive filesystem. Where it can, it returns the path whose case matches
the entries on disk. The model follows the code's own parts:

- `pathbuf_to_lowercase` is `Paths.LowerPath`. A path whose components all
  decode as text is lowercased component by component. Any other path is left
  unchanged.
- `Cache` is the class `PathCache.Cache`. Its `slots` field holds the LRU map
  from a folded path to an `Entry` carrying the case-exact path, in recency
  order: least recently used first, most recently used last. `Insert` is
  `put` under the folded key. `Get` looks the key up, which bumps its recency,
  then re-queries the stored path's metadata and pops the slot when that query
  fails. The functions `Put` and `Validated` state what the two methods do.
- `lookup` is the method `Resolver.Lookup`, proved equal to the function
  `Resolver.LookupStep`. It tries an optional exact-case probe, then scans the
  directory entries in enumeration order for the first decodable name that
  folds like the segment. It reports whether resolution went terminal.
- `resolve` is the method `Resolver.Resolve`, which hands its search part to
  `Resolver.Search`. The two are proved equal to the functions
  `Resolver.Resolved`, `Resolver.Probed` and `Resolver.Searched`, one per
  phase of the code:
  - strip the leading root, and pass through when case-insensitive matching
    is off;
  - reject a candidate that is not rooted, does not decode, or has no parent;
  - try the cache, then the exact-case check;
  - try the parent shortcut;
  - otherwise walk from the base directory segment by segment
    (`Resolver.RootWalk`). The walk stores the parent before the last lookup.
    Once it goes terminal, it appends the remaining segments verbatim.

The filesystem is an oracle, `FileSystem.Fs`. It gives a metadata outcome per
path: success, not found, or another error. For each directory that can be
read, it gives the listing in enumeration order; an item in a listing can fail
to read or fail to decode. `FileSystem.Consistent` says that every listed
entry exists. Lemmas about what ends up in the cache assume it.

Paths are a root flag plus a sequence of components. A component is either
text or raw bytes that do not decode.

The code and the design description disagree in places. The model follows the
code:

- The root walk passes `false` to `lookup` (line 101), so the exact-case probe
  runs for every segment. The design text says the walk skips it.
- The cache is consulted before the exact-case check (lines 52-59). So "an
  exact match is returned as given" holds only when the cache holds no live
  case variant under the same key. `ResolveProperties.ExactMatchKept` states
  the precise outcome.
- A resolution that goes terminal can still add slots to the cache: the
  parent it checked (line 75), or the parent the walk reached (line 99). The
  design says no cache entry is created. What the code does guarantee is
  `ResolveProperties.ResolvedTerminalStoresOnlyAncestors`: such a resolution
  adds only paths shorter than its result, never the result itself.
- The design also credits the exact-match fast path with a cache insert. The
  code stores nothing there (lines 57-59).
- Resolving the same input twice yields the same path only on a consistent
  filesystem where no metadata query fails with an error other than not-found
  (`Idempotence.ResolveIdempotent`). Take a directory that can be read but not
  searched. The first call walks, caches that directory, and its exact-case
  probe of the last segment stops on the permission error. The repeated call
  starts from the cached directory, skips the probe, and finds a differently
  cased entry by scanning. `Idempotence.RepeatCanDiffer` exhibits this case.

## Model

| member | source | states |
|---|---|---|
| Paths.LowerStrIdempotent | src/fspath.rs:175 | lowering a lowered string changes nothing |
| Paths.LowerPathShape | src/fspath.rs:173-179 | folding keeps the root flag, the number of components and decodability, and the folded path is a case variant of the original |
| Paths.LowerPathIdempotent | src/fspath.rs:173-179 | a folded key folds to itself |
| Paths.SameKeyIffSimilar | src/fspath.rs:173-179 | equal folded keys mean case variants; for decodable paths, case variants have equal keys |
| Paths.SimilarKeepsText | src/fspath.rs:174-177 | case variants agree on whether they decode |
| PathCache.IndexOf | src/fspath.rs:205 | the slot found is the first one stored under the key; none is found only when no slot has the key |
| PathCache.PutKeeps | src/fspath.rs:193 | every slot after `put` was there before or is the new one |
| PathCache.PutWellFormed | src/fspath.rs:187-194 | `insert` keeps the invariant: at most `capacity` slots, one slot per key, every key the fold of its stored path |
| PathCache.PutStores | src/fspath.rs:187-194 | after `insert` the only slot under the key holds the new entry, and it is the most recently used |
| PathCache.PutKeepsNewest | src/fspath.rs:193 | when the capacity is at least two, `put` under another key keeps the most recently used slot |
| PathCache.PutLeavesOthers | src/fspath.rs:193 | `put` leaves the other keys' slots in order; the only other change is evicting the least recently used slot when a new key arrives at a full map |
| PathCache.ValidatedKeeps | src/fspath.rs:199-216 | `get` never adds a slot |
| PathCache.PromoteWellFormed | src/fspath.rs:205-211 | the recency bump keeps the invariant, and a later `pop` of that key just removes its slot |
| PathCache.ValidatedWellFormed | src/fspath.rs:199-216 | `get` keeps the cache invariant |
| PathCache.ValidatedAnswer | src/fspath.rs:199-216 | `get` returns `Some(p)` exactly when the slot under the folded query holds `p` and `p` exists; that slot becomes the most recently used and `p` folds to the key; on `None`, no slot under the key remains |
| PathCache.ValidatedLeavesOthers | src/fspath.rs:199-216 | `get` leaves every other key's slot, and their recency order, untouched |
| PathCache.ValidatedServesNewest | src/fspath.rs:199-216 | the most recently used slot is served to any query with its key while its path exists |
| PathCache.ValidatedRepeat | src/fspath.rs:199-216 | a second `get` of the same path answers as the first and leaves the same slots |
| PathCache.InsertThenGet | src/fspath.rs:187-216 | a path stored by `insert` is returned by the next `get` of any case variant, while the path exists |
| PathCache.Cache.constructor | src/fspath.rs:182-184 | a new cache is empty, keeps the invariant, and has the given capacity |
| PathCache.Cache.Insert | src/fspath.rs:187-194 | keeps the invariant; the new slots are `put` of the folded path and the entry |
| PathCache.Cache.Get | src/fspath.rs:199-216 | keeps the invariant; the answer and the new slots are those of the lookup, bump, re-query and pop |
| Resolver.FirstMatch | src/fspath.rs:143-157 | the position found is the first entry, in enumeration order, that reads, decodes and folds like the segment; none is found only when no entry does |
| Resolver.Lookup | src/fspath.rs:116-159 | the path and terminal flag returned are those of `LookupStep` |
| Resolver.Resolve | src/fspath.rs:16-113 | keeps the cache invariant; the returned path and the new slots are those of `Resolved` on the old slots |
| Resolver.Search | src/fspath.rs:67-112 | keeps the cache invariant; the returned path and the new slots are those of the parent shortcut or, failing that, of the walk from the base |
| WalkProperties.LookupInitialCheck | src/fspath.rs:119-130 | with the probe enabled, an existing `dir/seg` is returned as non-terminal; an error other than not-found returns `dir/seg` as terminal |
| WalkProperties.LookupScan | src/fspath.rs:132-158 | without the probe or after a not-found, the outcome is non-terminal exactly when the segment decodes, the directory reads and some entry matches; the result then names the first match |
| WalkProperties.LookupTerminalIsVerbatim | src/fspath.rs:119-158 | every terminal outcome is the verbatim `dir/seg` |
| WalkProperties.LookupAddsOneComponent | src/fspath.rs:119-155 | `lookup` adds exactly one component to `dir`, and it folds like the segment |
| WalkProperties.LookupFoundExists | src/fspath.rs:148-155 | on a consistent filesystem, a non-terminal outcome names a path that exists |
| WalkProperties.WalkIgnoresCache | src/fspath.rs:91-107 | the path the walk builds, and whether it went terminal, do not depend on the cache |
| WalkProperties.WalkAfterStop | src/fspath.rs:104-106 | once terminal, every remaining segment is appended verbatim and the cache is untouched |
| WalkProperties.WalkShape | src/fspath.rs:92-107 | the walk keeps the base's components and adds one case variant per segment |
| WalkProperties.WalkPathSnoc | src/fspath.rs:95-107 | walking one more segment continues from the end of the shorter walk |
| WalkProperties.WalkLastStep | src/fspath.rs:95-107 | the whole walk is the walk up to the last segment followed by either a verbatim push or one lookup |
| WalkProperties.WalkSeedsParent | src/fspath.rs:96-100 | the walk's only cache effect is storing the path reached before the last segment, and only when it has not gone terminal |
| WalkProperties.WalkFoundExists | src/fspath.rs:101-103 | on a consistent filesystem, a non-terminal walk ends at a path that exists |
| WalkProperties.WalkWellFormed | src/fspath.rs:95-107 | the walk keeps the cache invariant |
| WalkProperties.WalkStoresParent | src/fspath.rs:97-100 | a walk that reaches the last segment leaves the resolved parent as the most recently used slot; it exists and carries the candidate parent's key |
| ResolveProperties.PassThrough | src/fspath.rs:24-36 | with matching off, the result is the base joined with the stripped input, and the cache is unchanged |
| ResolveProperties.LeadingRootIgnored | src/fspath.rs:24-29 | an input with a leading root resolves exactly as the same input without it |
| ResolveProperties.UnresolvableUnchanged | src/fspath.rs:38-49 | a candidate that is not rooted, does not decode or has no parent is returned unchanged, with the cache untouched |
| ResolveProperties.ExactMatchKept | src/fspath.rs:51-59 | a candidate that exists as given is returned as given, unless a live case variant is cached under its key, in which case that variant is returned |
| ResolveProperties.CaseRecovery | src/fspath.rs:67-88 | in a directory holding `Report.TXT`, resolving `report.txt` returns `Report.TXT` through the parent shortcut and caches it |
| ResolveProperties.SearchedWellFormed | src/fspath.rs:67-112 | the search keeps the cache invariant |
| ResolveProperties.ResolvedWellFormed | src/fspath.rs:16-113 | `resolve` keeps the cache invariant |
| ResolveProperties.ParentStartSimilar | src/fspath.rs:69-82 | the directory the shortcut starts from is a case variant of the candidate's parent, and the step keeps the invariant |
| ResolveProperties.SearchedIsCaseVariant | src/fspath.rs:67-112 | the search's result is a case variant of the base joined with the segments |
| ResolveProperties.ResolvedIsCaseVariant | src/fspath.rs:16-113 | every route returns a case variant of the candidate: same root, one component per input component, each folding like it |
| ResolveProperties.ValidatedAddsNothing | src/fspath.rs:199-216 | a `get` inside `resolve` adds no slot |
| ResolveProperties.PutAddsLive | src/fspath.rs:187-194 | inserting an existing path adds only a slot holding it |
| ResolveProperties.WalkAddsLive | src/fspath.rs:97-103 | on a consistent filesystem, the walk adds only a parent that exists |
| ResolveProperties.ParentStartAddsLive | src/fspath.rs:69-82 | the parent step adds only the parent it found on disk |
| ResolveProperties.SearchedAddsLive | src/fspath.rs:67-112 | on a consistent filesystem, the search adds only paths that exist |
| ResolveProperties.ResolvedStoresOnlyLive | src/fspath.rs:16-113 | on a consistent filesystem, `resolve` adds to the cache only paths that exist |
| ResolveProperties.SearchedStoresSuccess | src/fspath.rs:83-111 | a non-terminal shortcut or walk stores its result as the most recently used slot, under the result's folded form |
| ResolveProperties.ResolvedStoresSuccess | src/fspath.rs:83-111 | a resolution that did not go terminal leaves its result as the most recently used slot |
| ResolveProperties.ParentStartAddsParent | src/fspath.rs:69-82 | the parent step adds at most a parent, one component short, and adds nothing when that parent does not exist |
| ResolveProperties.WalkAddsOnlyParent | src/fspath.rs:97-100 | the walk adds only paths shorter than the candidate |
| ResolveProperties.SearchedTerminalAddsShorter | src/fspath.rs:67-111 | a search that went terminal adds only paths shorter than the candidate |
| ResolveProperties.ResolvedTerminalStoresOnlyAncestors | src/fspath.rs:83-111 | a resolution that went terminal, was served by the cache, existed as given or was not resolved adds only paths shorter than its result |
| ResolveProperties.SearchedWalkLeavesParent | src/fspath.rs:91-111 | with room for two slots, a successful walk leaves a live slot under the candidate parent's key |
| ResolveProperties.WalkLeavesParentCached | src/fspath.rs:91-111 | after a successful walk over several segments, the cache holds a live case variant of the candidate's parent |
| ResolveProperties.SearchedCachedParentSkipsWalk | src/fspath.rs:69-89 | with a live case variant of the parent cached, the search takes the shortcut |
| ResolveProperties.ValidatedKeepsLive | src/fspath.rs:199-216 | a `get` under another key keeps a live slot |
| ResolveProperties.CachedParentSkipsWalk | src/fspath.rs:51-89 | with a live case variant of the parent cached, resolving a path of several segments never walks from the base |
| ResolveProperties.SiblingSkipsWalk | src/fspath.rs:67-111 | after a successful walk over several segments, resolving a sibling under the same parent does not walk |
| Idempotence.SearchedSuccessLive | src/fspath.rs:83-111 | a non-terminal search result exists and has the candidate's folded key |
| Idempotence.SearchedSuccessServed | src/fspath.rs:83-111 | after a successful search, the next `get` of the candidate returns the result |
| Idempotence.SearchedTerminalKeepsKeyAbsent | src/fspath.rs:67-111 | a search that went terminal leaves no slot under the candidate's key when there was none |
| Idempotence.LookupProbeNotFound | src/fspath.rs:119-130 | when no query fails with another error, a terminal outcome with the probe matches the outcome without it |
| Idempotence.WalkTerminalRepeat | src/fspath.rs:91-111 | a terminal walk, repeated on the slots it left, returns the same path |
| Idempotence.SearchedTerminalRepeat | src/fspath.rs:67-111 | a terminal search, repeated on the slots it left, returns the same path |
| Idempotence.SearchedRepeat | src/fspath.rs:51-111 | after a search, the repeated probe-and-search returns the same path |
| Idempotence.ResolveIdempotent | src/fspath.rs:16-113 | on a consistent filesystem without other errors, resolving the same input again against the cache left behind returns the same path |
| Idempotence.DeniedFirstCall | src/fspath.rs:91-111 | in a directory that is readable but not searchable, the first call walks, caches the directory and returns the verbatim last segment as terminal |
| Idempotence.DeniedSecondCall | src/fspath.rs:67-88 | against the cache the first call left, the repeated call takes the shortcut and finds the differently cased entry |
| Idempotence.RepeatCanDiffer | src/fspath.rs:67-111 | with an error other than not-found, two successive calls return different paths |

## Left out

- Real filesystem calls (`metadata`, `exists`, `read_dir`) are replaced by the `Fs` oracle, so symbolic-link following is whatever the oracle reports. The filesystem does not change during a resolution. The check-then-use race the design accepts is not modelled.
- PathCache.Cache.Get: returns only the case-exact path. `fs::Metadata` contents are not modelled.
- The process-wide cache (`lazy_static`, `Arc`, the 1024 capacity) is out: an explicit `Cache` object is passed to `Resolve`. The `Mutex` is out, and so is concurrent access, including another thread acting between the two lock acquisitions in `get`.
- The `lru` crate's hash table is out; the map is its slots in recency order. For capacity zero the model stores nothing. `lru` versions differ there: older versions panic and newer ones refuse a zero capacity.
- Unicode `to_lowercase` is out; folding lowers ASCII `A`-`Z` only, so multi-character lowercase expansions are not modelled.
- `OsStr` bytes are out: the input and entry names arrive as components already marked text or raw. Rust's path parsing, including `.` components, repeated or trailing separators and Windows prefixes, is out. Because a parsed path has at most one root, the stripping loop runs at most once.
- The liveness lemmas (ResolvedStoresOnlyLive, WalkLeavesParentCached, SiblingSkipsWalk, ResolveIdempotent) assume `Consistent`: every listed entry exists.
- Idempotence.ResolveIdempotent: proved only when no metadata query fails with an error other than not-found. Without that the property is false (RepeatCanDiffer).
- ResolveProperties.SiblingSkipsWalk: needs a capacity of at least two. With one slot, the walk's result evicts the parent it stored.
