/**
 * `convertDockerStats`: maps a decoded Docker stats record, together with the
 * namespace's link statistics, to the canonical `containerStats` shape.
 */
module Convert {
  import opened GoInts
  import opened StatsTypes
  import opened LinkStats

  /** The interface record built from one entry of the link map; netlink's
      counters are already unsigned 64-bit, so every counter is copied as is. */
  function InterfaceFor(name: string, s: LinkStatistics): InterfaceStats {
    InterfaceStats(name, s.rxBytes, s.rxPackets, s.rxErrors, s.rxDropped,
                   s.txBytes, s.txPackets, s.txErrors, s.txDropped)
  }

  /** `ifaces` lists every entry of `m` exactly once, in some order (Go's map
      iteration order is unspecified), each with all eight counters copied. */
  ghost predicate EnumeratesLinks(ifaces: seq<InterfaceStats>, m: map<string, LinkStatistics>) {
    && (forall i :: 0 <= i < |ifaces| ==>
          ifaces[i].name in m && ifaces[i] == InterfaceFor(ifaces[i].name, m[ifaces[i].name]))
    && (forall i, j :: 0 <= i < j < |ifaces| ==> ifaces[i].name != ifaces[j].name)
    && (forall name :: name in m ==> exists i :: 0 <= i < |ifaces| && ifaces[i].name == name)
  }

  /** The first `n` per-core values are the raw ones, converted, in order. */
  ghost predicate PerCpuConverted(perCpu: seq<uint64>, raw: seq<int64>, n: nat)
    requires n <= |perCpu| && n <= |raw|
  {
    forall i :: 0 <= i < n ==> perCpu[i] == ToUint64(raw[i])
  }

  /** The first `n` disk records carry device 0:0 and only their tuple's `{op: value}`. */
  ghost predicate DisksConverted(disks: seq<PerDiskStats>, raw: seq<BlkioEntry>, n: nat)
    requires n <= |disks| && n <= |raw|
  {
    forall i :: 0 <= i < n ==>
      disks[i].major == 0 && disks[i].minor == 0 && disks[i].stats == map[raw[i].op := ToUint64(raw[i].value)]
  }

  /** The field mapping of `convertDockerStats`: `r` is a conversion of `raw`
      enriched with the link map `m`. */
  ghost predicate IsConversionOf(r: ContainerStats, raw: DockerStats, m: map<string, LinkStatistics>) {
    var usage, rawUsage := r.cpu.usage, raw.cpuUsage;
    // timestamp unchanged, total CPU and memory usage through the 64-bit wrap
    && r.timestamp == raw.read
    && usage.total == ToUint64(rawUsage.totalUsage)
    && r.memory.usage == ToUint64(raw.memoryUsage)
    // per-core usage: same length and order, element-wise converted
    && |usage.perCpu| == |rawUsage.percpuUsage|
    && PerCpuConverted(usage.perCpu, rawUsage.percpuUsage, |usage.perCpu|)
    // kernel-mode time goes into both System and User
    && usage.system == ToUint64(rawUsage.usageInKernelmode)
    && usage.user == ToUint64(rawUsage.usageInKernelmode)
    // one unmerged disk record per blkio tuple, device left at 0:0
    && |r.diskIo.ioServiceBytes| == |raw.ioServiceBytesRecursive|
    && DisksConverted(r.diskIo.ioServiceBytes, raw.ioServiceBytesRecursive, |r.diskIo.ioServiceBytes|)
    // one interface per link-map entry
    && EnumeratesLinks(r.network.interfaces, m)
  }

  /** `convertDockerStats(stats, pid)`, where `netns` is what resolving
      `pid`'s namespace and listing its links yields during this call. */
  method ConvertDockerStats(stats: DockerStats, netns: LinkListing) returns (r: ContainerStats)
    ensures IsConversionOf(r, stats, LinkStatsOf(netns))
    ensures |r.network.interfaces| == |LinkStatsOf(netns)|
    ensures forall i :: 0 <= i < |r.network.interfaces| ==> r.network.interfaces[i].name != Loopback
    ensures !netns.Links? ==> r.network.interfaces == []
  {
    var raw := stats.cpuUsage;
    var perCpu: seq<uint64> := [];
    for k := 0 to |raw.percpuUsage|
      invariant |perCpu| == k
      invariant PerCpuConverted(perCpu, raw.percpuUsage, k)
    {
      perCpu := perCpu + [ToUint64(raw.percpuUsage[k])];
    }
    var usage := CpuUsage(
      total := ToUint64(raw.totalUsage),
      perCpu := perCpu,
      user := ToUint64(raw.usageInKernelmode),
      system := ToUint64(raw.usageInKernelmode));
    var memory := MemoryStats(ToUint64(stats.memoryUsage));

    var linkStats := GetLinkStats(netns);
    var interfaces := ListInterfaces(linkStats);

    var disks: seq<PerDiskStats> := [];
    for k := 0 to |stats.ioServiceBytesRecursive|
      invariant |disks| == k
      invariant DisksConverted(disks, stats.ioServiceBytesRecursive, k)
    {
      var e := stats.ioServiceBytesRecursive[k];
      disks := disks + [PerDiskStats(0, 0, map[e.op := ToUint64(e.value)])];
    }

    r := ContainerStats(stats.read, CpuStats(usage), DiskIoStats(disks), NetworkStats(interfaces), memory);
    EnumerationLength(interfaces, linkStats);
    forall i | 0 <= i < |interfaces| ensures interfaces[i].name != Loopback {
      LoopbackExcluded(netns);
    }
  }

  /** The `range` over the link map in `convertDockerStats`: one interface
      record per entry, in whatever order the keys are picked. */
  method ListInterfaces(linkStats: map<string, LinkStatistics>) returns (interfaces: seq<InterfaceStats>)
    ensures EnumeratesLinks(interfaces, linkStats)
  {
    interfaces := [];
    var pending := linkStats.Keys;
    while pending != {}
      invariant pending <= linkStats.Keys
      invariant forall i :: 0 <= i < |interfaces| ==>
        interfaces[i].name in linkStats && interfaces[i].name !in pending &&
        interfaces[i] == InterfaceFor(interfaces[i].name, linkStats[interfaces[i].name])
      invariant forall i, j :: 0 <= i < j < |interfaces| ==> interfaces[i].name != interfaces[j].name
      invariant forall name :: name in linkStats && name !in pending ==>
        exists i :: 0 <= i < |interfaces| && interfaces[i].name == name
      decreases pending
    {
      var name :| name in pending;
      ghost var before := interfaces;
      interfaces := interfaces + [InterfaceFor(name, linkStats[name])];
      pending := pending - {name};
      forall n | n in linkStats && n !in pending
        ensures exists i :: 0 <= i < |interfaces| && interfaces[i].name == n
      {
        if n == name {
          assert interfaces[|before|].name == n;
        } else {
          var i :| 0 <= i < |before| && before[i].name == n;
          assert interfaces[i] == before[i];
        }
      }
    }
  }

  /** The names carried by a list of interfaces. */
  function NamesOf(ifaces: seq<InterfaceStats>): set<string> {
    set i | 0 <= i < |ifaces| :: ifaces[i].name
  }

  /** Pairwise distinct names are as many as the interfaces carrying them. */
  lemma {:induction false} DistinctNamesCount(ifaces: seq<InterfaceStats>)
    requires forall i, j :: 0 <= i < j < |ifaces| ==> ifaces[i].name != ifaces[j].name
    ensures |NamesOf(ifaces)| == |ifaces|
  {
    if ifaces != [] {
      var front := ifaces[..|ifaces| - 1];
      var last := ifaces[|ifaces| - 1];
      DistinctNamesCount(front);
      assert NamesOf(ifaces) == NamesOf(front) + {last.name} by {
        forall name | name in NamesOf(ifaces) ensures name in NamesOf(front) + {last.name} {
          var i :| 0 <= i < |ifaces| && ifaces[i].name == name;
          if i < |front| { assert front[i] == ifaces[i]; }
        }
        forall name | name in NamesOf(front) ensures name in NamesOf(ifaces) {
          var i :| 0 <= i < |front| && front[i].name == name;
          assert ifaces[i] == front[i];
        }
      }
      forall i | 0 <= i < |front| ensures front[i].name != last.name {
        assert front[i] == ifaces[i];
      }
    }
  }

  /** An enumeration of a link map has exactly one interface per map entry. */
  lemma EnumerationLength(ifaces: seq<InterfaceStats>, m: map<string, LinkStatistics>)
    requires EnumeratesLinks(ifaces, m)
    ensures |ifaces| == |m|
  {
    assert NamesOf(ifaces) == m.Keys by {
      forall name | name in m ensures name in NamesOf(ifaces) {
        var i :| 0 <= i < |ifaces| && ifaces[i].name == name;
      }
    }
    DistinctNamesCount(ifaces);
  }

  /** In a sequence without repetitions each element occurs once. */
  lemma {:induction false} DistinctOccursOnce(s: seq<InterfaceStats>, x: InterfaceStats)
    requires forall i, j :: 0 <= i < j < |s| ==> s[i] != s[j]
    ensures multiset(s)[x] == if x in s then 1 else 0
  {
    if s != [] {
      var front := s[..|s| - 1];
      assert s == front + [s[|s| - 1]];
      DistinctOccursOnce(front, x);
      forall i | 0 <= i < |front| ensures front[i] != s[|s| - 1] {
        assert front[i] == s[i];
      }
    }
  }

  /** Two enumerations of the same link map differ only in order. */
  lemma EnumerationsArePermutations(a: seq<InterfaceStats>, b: seq<InterfaceStats>, m: map<string, LinkStatistics>)
    requires EnumeratesLinks(a, m) && EnumeratesLinks(b, m)
    ensures multiset(a) == multiset(b)
  {
    forall x ensures multiset(a)[x] == multiset(b)[x] {
      DistinctOccursOnce(a, x);
      DistinctOccursOnce(b, x);
      if x in a {
        var i :| 0 <= i < |a| && a[i] == x;
        var j :| 0 <= j < |b| && b[j].name == x.name;
        assert b[j] == x;
      }
      if x in b {
        var j :| 0 <= j < |b| && b[j] == x;
        var i :| 0 <= i < |a| && a[i].name == x.name;
        assert a[i] == x;
      }
    }
  }

  /** The conversion is determined by its inputs up to the order of the
      interfaces, and `usage_in_usermode` has no influence on it: records that
      differ at most in user-mode time convert to the same snapshot. */
  lemma ConversionIgnoresUserMode(r1: ContainerStats, raw1: DockerStats,
                                  r2: ContainerStats, raw2: DockerStats,
                                  m: map<string, LinkStatistics>)
    requires raw1.(cpuUsage := raw1.cpuUsage.(usageInUsermode := 0)) ==
             raw2.(cpuUsage := raw2.cpuUsage.(usageInUsermode := 0))
    requires IsConversionOf(r1, raw1, m) && IsConversionOf(r2, raw2, m)
    ensures r1.(network := r2.network) == r2
    ensures multiset(r1.network.interfaces) == multiset(r2.network.interfaces)
  {
    assert raw1.cpuUsage.percpuUsage == raw2.cpuUsage.percpuUsage;
    assert r1.cpu.usage.perCpu == r2.cpu.usage.perCpu;
    assert raw1.ioServiceBytesRecursive == raw2.ioServiceBytesRecursive;
    var d1, d2 := r1.diskIo.ioServiceBytes, r2.diskIo.ioServiceBytes;
    forall i | 0 <= i < |d1| ensures d1[i] == d2[i] {
      var e := raw1.ioServiceBytesRecursive[i];
      assert d1[i] == PerDiskStats(0, 0, map[e.op := ToUint64(e.value)]);
    }
    assert d1 == d2;
    EnumerationsArePermutations(r1.network.interfaces, r2.network.interfaces, m);
  }

  /** Worked example: total 1e9 ns, kernel 2e8 ns and user 3e8 ns convert to
      total 1e9, system 2e8 and user 2e8 (the user-mode time is not read). */
  lemma CpuMappingExample(r: ContainerStats, raw: DockerStats, m: map<string, LinkStatistics>)
    requires raw.cpuUsage.totalUsage == 1_000_000_000
    requires raw.cpuUsage.usageInKernelmode == 200_000_000
    requires raw.cpuUsage.usageInUsermode == 300_000_000
    requires IsConversionOf(r, raw, m)
    ensures r.cpu.usage.total == 1_000_000_000
    ensures r.cpu.usage.system == 200_000_000
    ensures r.cpu.usage.user == 200_000_000
  {
  }

  /** Worked example: a Read and a Write tuple of device 8:0 become two
      separate records `{Read: 100}` and `{Write: 50}`, not one merged record. */
  lemma BlkioNotMergedExample(r: ContainerStats, raw: DockerStats, m: map<string, LinkStatistics>)
    requires raw.ioServiceBytesRecursive == [BlkioEntry(8, 0, "Read", 100), BlkioEntry(8, 0, "Write", 50)]
    requires IsConversionOf(r, raw, m)
    ensures r.diskIo.ioServiceBytes ==
      [PerDiskStats(0, 0, map["Read" := 100]), PerDiskStats(0, 0, map["Write" := 50])]
  {
  }
}
