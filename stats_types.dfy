/**
 * The record shapes of the stats pipeline: the subset of Docker's raw stats
 * record that the conversion reads, the canonical snapshot it produces, the
 * per-container series, and the kernel's view of a network namespace.
 */
module StatsTypes {
  import opened Wrappers
  import opened GoInts

  /** Go's `time.Time`, carried through unchanged; only its identity matters. */
  datatype Time = Time(unixNanos: int)

  /** Errors of the line reader and of the JSON decoder. */
  datatype Error = EOF | ReadFailure(reason: string) | DecodeFailure(reason: string)

  // ---- Raw Docker record (only the fields the conversion reads) ----

  /** One `{major, minor, op, value}` tuple of `blkio_stats.io_service_bytes_recursive`. */
  datatype BlkioEntry = BlkioEntry(major: int64, minor: int64, op: string, value: int64)

  /** `cpu_stats.cpu_usage`. */
  datatype RawCpuUsage = RawCpuUsage(
    percpuUsage: seq<int64>,
    usageInUsermode: int64,
    totalUsage: int64,
    usageInKernelmode: int64)

  /** `DockerStats`, restricted to `read`, `cpu_stats.cpu_usage`, `memory_stats.usage`
      and `blkio_stats.io_service_bytes_recursive`. */
  datatype DockerStats = DockerStats(
    read: Time,
    cpuUsage: RawCpuUsage,
    memoryUsage: int64,
    ioServiceBytesRecursive: seq<BlkioEntry>)

  // ---- Canonical snapshot ----

  /** Nanosecond CPU counters. */
  datatype CpuUsage = CpuUsage(total: uint64, perCpu: seq<uint64>, user: uint64, system: uint64)

  datatype CpuStats = CpuStats(usage: CpuUsage)

  /** Device identity and an operation-name to value map. */
  datatype PerDiskStats = PerDiskStats(major: uint64, minor: uint64, stats: map<string, uint64>)

  datatype DiskIoStats = DiskIoStats(ioServiceBytes: seq<PerDiskStats>)

  /** One network interface and its eight cumulative counters. */
  datatype InterfaceStats = InterfaceStats(
    name: string,
    rxBytes: uint64, rxPackets: uint64, rxErrors: uint64, rxDropped: uint64,
    txBytes: uint64, txPackets: uint64, txErrors: uint64, txDropped: uint64)

  datatype NetworkStats = NetworkStats(interfaces: seq<InterfaceStats>)

  datatype MemoryStats = MemoryStats(usage: uint64)

  /** `containerStats`: one point-in-time measurement. */
  datatype ContainerStats = ContainerStats(
    timestamp: Time,
    cpu: CpuStats,
    diskIo: DiskIoStats,
    network: NetworkStats,
    memory: MemoryStats)

  /** `containerInfo`: a container id and its series; `stats == None` is Go's nil slice. */
  datatype ContainerInfo = ContainerInfo(id: string, stats: Option<seq<ContainerStats>>)

  /** The zero `containerInfo{}` returned on every error. */
  const ZeroInfo: ContainerInfo := ContainerInfo("", None)

  // ---- Kernel view of a network namespace ----

  /** The counters of netlink's `LinkStatistics` that the conversion copies. */
  datatype LinkStatistics = LinkStatistics(
    rxPackets: uint64, txPackets: uint64, rxBytes: uint64, txBytes: uint64,
    rxErrors: uint64, txErrors: uint64, rxDropped: uint64, txDropped: uint64)

  /** One listed link: its name and its statistics. */
  datatype Link = Link(name: string, statistics: LinkStatistics)

  /** What resolving a process's network namespace and listing its links yields:
      one of the three failures, or the listed links in kernel order. */
  datatype LinkListing = NoNamespace | NoHandle | ListFailed | Links(links: seq<Link>)

  /** The loopback interface's name, excluded from the enrichment. */
  const Loopback: string := "lo"
}
