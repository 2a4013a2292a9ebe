/**
 * `getContainerInfo`: reads `count` newline-terminated stats records, decodes
 * and converts each, and returns the series, or the zero `containerInfo` and
 * the first error.
 *
 * The buffered reader is modelled by the outcomes of its future
 * `ReadString('\n')` calls; the method returns what it has not consumed.
 * The JSON decoder (`FromString`) and the kernel's answer to the namespace
 * lookup of each sample are parameters.
 */
module ContainerInfo {
  import opened Wrappers
  import opened StatsTypes
  import opened LinkStats
  import opened Convert

  /** One `ReadString('\n')` outcome: a complete line, or an error (io.EOF also
      for a final line that lacks its newline). */
  datatype LineRead = Line(text: string) | ReadError(err: Error)

  function Min(a: nat, b: nat): nat {
    if a < b then a else b
  }

  /** The `i`-th read from a reader that delivers `lines`; an exhausted reader
      reports EOF. */
  function ReadAt(lines: seq<LineRead>, i: nat): LineRead {
    if i < |lines| then lines[i] else ReadError(EOF)
  }

  /** `reader.ReadString('\n')`: the next outcome and the lines left after it. */
  function ReadString(lines: seq<LineRead>): (r: (LineRead, seq<LineRead>))
    ensures r.0 == ReadAt(lines, 0)
    ensures lines == [] ==> r.1 == []
    ensures lines != [] ==> lines == [r.0] + r.1
  {
    if lines == [] then (ReadError(EOF), []) else (lines[0], lines[1..])
  }

  /** Reading from what is left after `i` reads yields the `i`-th outcome. */
  lemma ReadNext(lines: seq<LineRead>, i: nat)
    ensures ReadString(lines[Min(i, |lines|)..]).0 == ReadAt(lines, i)
    ensures ReadString(lines[Min(i, |lines|)..]).1 == lines[Min(i + 1, |lines|)..]
  {
  }

  /** Sample `i` is read as a complete line that decodes. */
  predicate Decodes(lines: seq<LineRead>, decode: string -> Result<DockerStats, Error>, i: nat) {
    ReadAt(lines, i).Line? && decode(ReadAt(lines, i).text).Success?
  }

  /** The raw record of a sample that decodes. */
  function DecodedAt(lines: seq<LineRead>, decode: string -> Result<DockerStats, Error>, i: nat): DockerStats
    requires Decodes(lines, decode, i)
  {
    decode(ReadAt(lines, i).text).value
  }

  /** The error of a sample that does not decode: the read error, else the decoder's. */
  function FailureAt(lines: seq<LineRead>, decode: string -> Result<DockerStats, Error>, i: nat): Error
    requires !Decodes(lines, decode, i)
  {
    match ReadAt(lines, i)
    case ReadError(e) => e
    case Line(text) => decode(text).error
  }

  /** Sample `k` is the first that does not decode. */
  ghost predicate FirstFailure(lines: seq<LineRead>, decode: string -> Result<DockerStats, Error>, k: nat) {
    !Decodes(lines, decode, k) && forall j :: 0 <= j < k ==> Decodes(lines, decode, j)
  }

  /** Snapshot `j` of `stats`, for each `j < n`, converts sample `j`, enriched
      with what the kernel reports for `pid` during that sample. */
  ghost predicate ConvertedSeries(stats: seq<ContainerStats>, lines: seq<LineRead>,
                                  decode: string -> Result<DockerStats, Error>,
                                  pid: int, kernel: (int, nat) -> LinkListing, n: nat)
  {
    && |stats| == n
    && forall j :: 0 <= j < n ==>
         Decodes(lines, decode, j) &&
         IsConversionOf(stats[j], DecodedAt(lines, decode, j), LinkStatsOf(kernel(pid, j)))
  }

  /** Appending the conversion of sample `n` extends a converted series by one. */
  lemma ConvertedSeriesSnoc(stats: seq<ContainerStats>, next: ContainerStats, lines: seq<LineRead>,
                            decode: string -> Result<DockerStats, Error>,
                            pid: int, kernel: (int, nat) -> LinkListing, n: nat)
    requires ConvertedSeries(stats, lines, decode, pid, kernel, n)
    requires Decodes(lines, decode, n)
    requires IsConversionOf(next, DecodedAt(lines, decode, n), LinkStatsOf(kernel(pid, n)))
    ensures ConvertedSeries(stats + [next], lines, decode, pid, kernel, n + 1)
  {
  }

  /** When the namespace lookup fails for every sample, every snapshot of the
      series has an empty interface list; nothing else about it changes. */
  lemma NoNamespaceNoInterfaces(stats: seq<ContainerStats>, lines: seq<LineRead>,
                                decode: string -> Result<DockerStats, Error>,
                                pid: int, kernel: (int, nat) -> LinkListing, n: nat)
    requires ConvertedSeries(stats, lines, decode, pid, kernel, n)
    requires forall j :: 0 <= j < n ==> !kernel(pid, j).Links?
    ensures forall j :: 0 <= j < n ==> stats[j].network.interfaces == []
  {
    forall j | 0 <= j < n ensures stats[j].network.interfaces == [] {
      EnumerationLength(stats[j].network.interfaces, LinkStatsOf(kernel(pid, j)));
    }
  }

  /** The number of iterations of `for i := 0; i < count; i++`. */
  function Samples(count: int): nat {
    if count > 0 then count else 0
  }

  /** `getContainerInfo(reader, count, id, pid)`; `kernel(pid, i)` is what the
      namespace lookup inside the conversion of sample `i` observes. */
  method GetContainerInfo(reader: seq<LineRead>, count: int, id: string, pid: int,
                          decode: string -> Result<DockerStats, Error>,
                          kernel: (int, nat) -> LinkListing)
    returns (info: ContainerInfo, err: Option<Error>, rest: seq<LineRead>)
    // success exactly when every one of the samples reads and decodes
    ensures err.None? <==> forall j :: 0 <= j < Samples(count) ==> Decodes(reader, decode, j)
    // on success: the id and one converted snapshot per sample, in read order
    ensures err.None? ==>
      && info.id == id
      && info.stats.Some?
      && |info.stats.value| == Samples(count)
      && ConvertedSeries(info.stats.value, reader, decode, pid, kernel, Samples(count))
      && rest == reader[Min(Samples(count), |reader|)..]
    // on failure: the zero containerInfo, the first failure's error, and no read past it
    ensures err.Some? ==> info == ZeroInfo
    ensures err.Some? ==> exists k: nat :: (k < Samples(count) && FirstFailure(reader, decode, k)
      && err.value == FailureAt(reader, decode, k)
      && rest == reader[Min(k + 1, |reader|)..])
  {
    info := ContainerInfo(id, None);
    var stats: seq<ContainerStats> := [];
    rest := reader;
    var i := 0;
    while i < count
      invariant 0 <= i <= Samples(count)
      invariant rest == reader[Min(i, |reader|)..]
      invariant forall j :: 0 <= j < i ==> Decodes(reader, decode, j)
      invariant ConvertedSeries(stats, reader, decode, pid, kernel, i)
    {
      ReadNext(reader, i);
      var (line, after) := ReadString(rest);
      rest := after;
      if line.ReadError? {
        assert FirstFailure(reader, decode, i) && line.err == FailureAt(reader, decode, i);
        return ZeroInfo, Some(line.err), rest;
      }
      var decoded := decode(line.text);
      if decoded.Failure? {
        assert FirstFailure(reader, decode, i) && decoded.error == FailureAt(reader, decode, i);
        return ZeroInfo, Some(decoded.error), rest;
      }
      var contStats := ConvertDockerStats(decoded.value, kernel(pid, i));
      ConvertedSeriesSnoc(stats, contStats, reader, decode, pid, kernel, i);
      stats := stats + [contStats];
      i := i + 1;
    }
    info := info.(stats := Some(stats));
    err := None;
  }
}
