# Container stats normalisation — a Dafny model

This project models the stats pipeline of the host API's `stats` package
(`stats/common.go`). The package reads Docker's streaming stats records and
converts each one into the canonical `containerStats` snapshot, which holds
the timestamp, CPU, memory, block I/O and network figures. Each snapshot is
enriched with the per-interface counters of the container's own network
namespace. The package also contains the small `pathParts` helper.

Modules, one file each:

- `Wrappers` (`wrappers.dfy`): `Option` and `Result`.
- `GoInts` (`go_ints.dfy`): `int64` and `uint64`, and Go's `uint64(x)` conversion of an `int64`. The conversion wraps modulo 2^64.
- `StatsTypes` (`stats_types.dfy`): the subset of `DockerStats` that the conversion reads, and `containerStats` with its parts. Also `containerInfo`, and what the kernel reports for a namespace (`LinkListing`).
- `Paths` (`paths.dfy`): `pathParts`, with `strings.TrimPrefix`, `strings.TrimSuffix`, `strings.Split` and `strings.Join` written out for a one-character separator.
- `LinkStats` (`link_stats.dfy`): `getLinkStats`. A declarative "last listing wins" map is the reference, and the insertion loop is proved equal to it.
- `Convert` (`convert.dfy`): `convertDockerStats`. The field mapping is stated as the predicate `IsConversionOf`.
- `ContainerInfo` (`container_info.dfy`): `getContainerInfo`, the fail-fast loop over `count` records.

How the environment is modelled:

- The buffered reader is the sequence of outcomes that its future `ReadString('\n')` calls will return. The method returns the outcomes it did not consume. An exhausted reader reports `EOF`. So does a final line without its newline: write it as `ReadError(EOF)`.
- `FromString` is a parameter `decode: string -> Result<DockerStats, Error>`.
- The lookup chain `netns.GetFromPid` → `netlink.NewHandleAt` → `LinkList` is a `LinkListing` value. Its three failure constructors stand for the three early `return nil`s.
- The source resolves the namespace again for every sample. So `getContainerInfo` takes `kernel: (int, nat) -> LinkListing`, the answer seen for `pid` during sample `i`.
- Go's nil map is `map[]`. The nil `Stats` slice of the zero `containerInfo{}` is `None`, and a non-nil slice is `Some(seq)`.
- The interface list comes from ranging over a Go map, whose order is unspecified. The model picks keys in an arbitrary order, and the contract holds for every order.

Two behaviours of the code worth noting:

- Device numbers: the code never assigns `Major` or `Minor`, so every disk record carries device 0:0 (stats/common.go:293-296).
- Sample count: a negative sample count is not rejected. The loop runs zero times, and the result is a successful, empty, non-nil series.

## Model

| member | source | states |
|---|---|---|
| `GoInts.ToUint64` | stats/common.go:269 | `uint64(int64)` is congruent to its input modulo 2^64. It keeps non-negative values and maps negative ones to the upper half. |
| `GoInts.ToUint64Injective` | stats/common.go:269-276 | The int64→uint64 conversion loses no information. |
| `Paths.TrimPrefix` | stats/common.go:16 | The input is `/` followed by the result when it starts with `/`; otherwise the result is the input. |
| `Paths.TrimSuffix` | stats/common.go:17 | The input is the result followed by `/` when it ends with `/`; otherwise the result is the input. |
| `Paths.Split` | stats/common.go:18 | `strings.Split` never returns an empty list, and no piece contains the separator. |
| `Paths.JoinSplit` | stats/common.go:18 | Joining the pieces of a split with the separator restores the string. |
| `Paths.SplitJoin` | stats/common.go:18 | Splitting a join of separator-free pieces gives back exactly those pieces. |
| `Paths.PathParts` | stats/common.go:15-19 | The result is never empty, and no segment contains `/`. |
| `Paths.PathPartsJoin` | stats/common.go:15-19 | The path equals its segments joined by `/`. A `/` precedes them exactly when the path starts with `/`. A `/` follows them exactly when the path, with that leading `/` removed, ends with `/`. |
| `Paths.PathPartsRoundTrip` | stats/common.go:15-19 | Non-empty, slash-free segments come back unchanged from a path built of them, with or without a leading and a trailing `/`. |
| `LinkStats.LastIndexOf` | stats/common.go:334-339 | The last position at which a listed name occurs, so no later link has that name. |
| `LinkStats.Names` | stats/common.go:336 | Every name it collects is listed and is not `"lo"`. |
| `LinkStats.LastListedSnoc` | stats/common.go:334-339 | Listing one more link overwrites or adds that name's entry, unless the name is `"lo"`, which changes nothing. |
| `LinkStats.GetLinkStats` | stats/common.go:318-341 | The insertion loop produces exactly the reference map: empty on any failure of the lookup chain; otherwise each non-loopback name maps to its last-listed statistics. |
| `LinkStats.FailedListingIsEmpty` | stats/common.go:320-333 | A failed namespace lookup, handle creation or link listing yields no entries, never an error. |
| `LinkStats.LinkStatsKeys` | stats/common.go:334-339 | On a successful listing, a name is a key exactly when it is listed and is not `"lo"`. |
| `LinkStats.LoopbackExcluded` | stats/common.go:336 | `"lo"` is never a key, whatever else is listed. |
| `LinkStats.LastListingWins` | stats/common.go:337 | A name listed several times maps to the statistics of its last listing. |
| `Convert.ListInterfaces` | stats/common.go:277-290 | Ranging over the link map emits each entry exactly once, in some order, with all eight counters copied. |
| `Convert.ConvertDockerStats` | stats/common.go:266-299 | Timestamp copied unchanged; total CPU and memory usage through the 64-bit wrap; per-core usage with the same length and order; kernel-mode time in both `System` and `User`. One unmerged disk record per blkio tuple: device 0:0 and a single `{op: value}` entry. One interface per non-loopback link entry, none at all when enrichment fails. |
| `Convert.EnumerationLength` | stats/common.go:277-290 | The interface list has exactly one element per key of the link map. |
| `Convert.EnumerationsArePermutations` | stats/common.go:278 | Any two iteration orders give interface lists that are permutations of each other. |
| `Convert.ConversionIgnoresUserMode` | stats/common.go:266-299 | Two conversions of records that differ at most in `usage_in_usermode`, with the same link map, agree on everything except the order of interfaces. So the conversion is pure, and user-mode time has no influence. |
| `Convert.CpuMappingExample` | stats/common.go:269-275 | total 1e9, kernel 2e8 and user 3e8 convert to total 1e9, system 2e8 and user 2e8. |
| `Convert.BlkioNotMergedExample` | stats/common.go:291-297 | Read 100 and Write 50 on device 8:0 become two records, `{Read: 100}` and `{Write: 50}`, each on device 0:0. |
| `ContainerInfo.ReadString` | stats/common.go:251 | One read returns the next outcome and consumes it. An exhausted reader reports EOF and stays exhausted. |
| `ContainerInfo.ConvertedSeriesSnoc` | stats/common.go:259-260 | Appending the conversion of sample n extends a series of n converted samples to n+1. |
| `ContainerInfo.GetContainerInfo` | stats/common.go:246-264 | Success exactly when all `max(count, 0)` samples read and decode. On success: `Id == id` and a non-nil series of exactly that many snapshots, where snapshot i converts line i enriched by that sample's lookup. On failure: the zero `containerInfo` (empty id, nil stats, no prefix), the first failing sample's error, and nothing read past it. |
| `ContainerInfo.NoNamespaceNoInterfaces` | stats/common.go:277-290 | If the namespace lookup fails for every sample, every snapshot of the series has an empty interface list. |

## Left out

- `parseRequestToken` (stats/common.go:21-29): a wrapper over the JWT library, which is not part of this model.
- `getMemCapcity` (stats/common.go:310-316): a call into gopsutil, which is not part of this model.
- `getContainerStats` (stats/common.go:31-34): it delegates to `getDockerContainerInfo`, which is not part of this model. `getContainerInfo` is modelled instead.
- JSON decoding in `FromString` (stats/common.go:301-308): `encoding/json` is not part of this model. It is the abstract `decode` parameter, so no serialisation round trip is stated.
- The kernel calls `netns.GetFromPid`, `netlink.NewHandleAt` and `LinkList`, and the deferred `Close`/`Delete` (stats/common.go:320-330): system I/O. Only their outcome (`LinkListing`) is modelled, not the release of the handles.
- `bufio.Reader` buffering: only the sequence of `ReadString` outcomes is modelled.
- A link whose `Statistics` pointer is nil: the model's links always carry statistics. In the source, the dereference at stats/common.go:281 would panic.
- netlink's `LinkStatistics` is taken to have unsigned 64-bit counters, so the conversions at stats/common.go:281-288 are identities.
- Raw fields the conversion never reads: `pids_stats`, `networks`, the other blkio lists, memory sub-counters, `max_usage`/`failcnt`/`limit`, `system_cpu_usage`, throttling data and `precpu_stats`.
- The embedded `InterfaceStats` of `NetworkStats` (stats/common.go:214): it is always zero.
- `PerCpu`, `Interfaces` and `IoServiceBytes` are `seq`s. The source always sets them to non-nil slices, so Go's nil-versus-empty distinction does not arise for them.
- Snapshots are values. The source's `*containerStats` pointers are never shared or mutated after appending, so aliasing is not modelled.
- Go strings are byte sequences, while the model's `string` is a sequence of characters. This does not matter here: the model only splits on the ASCII `/` and compares names with `"lo"`.
- The wall-clock `time.Time` is an opaque value that is only copied.
