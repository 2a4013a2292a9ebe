/**
 * `pathParts`: strip one leading and one trailing `/`, then split on `/`,
 * with Go's `strings.TrimPrefix`, `strings.TrimSuffix` and `strings.Split`
 * written out for a one-character separator.
 */
module Paths {

  const Slash: char := '/'

  /** `strings.TrimPrefix(s, [c])`. */
  function TrimPrefix(s: string, c: char): (r: string)
    ensures if |s| > 0 && s[0] == c then s == [c] + r else r == s
  {
    if |s| > 0 && s[0] == c then s[1..] else s
  }

  /** `strings.TrimSuffix(s, [c])`. */
  function TrimSuffix(s: string, c: char): (r: string)
    ensures if |s| > 0 && s[|s| - 1] == c then s == r + [c] else r == s
  {
    if |s| > 0 && s[|s| - 1] == c then s[..|s| - 1] else s
  }

  /** `strings.Split(s, [sep])`: the pieces between consecutive separators. */
  function Split(s: string, sep: char): (parts: seq<string>)
    ensures |parts| >= 1
    ensures forall k :: 0 <= k < |parts| ==> sep !in parts[k]
    decreases |s|
  {
    if s == [] then [[]]
    else
      var rest := Split(s[1..], sep);
      if s[0] == sep then [[]] + rest
      else [[s[0]] + rest[0]] + rest[1..]
  }

  /** `strings.Join(parts, [sep])`. */
  function Join(parts: seq<string>, sep: char): string
    requires |parts| >= 1
  {
    if |parts| == 1 then parts[0] else parts[0] + [sep] + Join(parts[1..], sep)
  }

  /** Joining the pieces back restores the split string. */
  lemma {:induction false} JoinSplit(s: string, sep: char)
    ensures Join(Split(s, sep), sep) == s
    decreases |s|
  {
    if s != [] {
      var rest := Split(s[1..], sep);
      JoinSplit(s[1..], sep);
      if s[0] == sep {
        assert s == [sep] + s[1..];
      } else {
        JoinCons(s[0], rest, sep);
        assert s == [s[0]] + s[1..];
      }
    }
  }

  /** Prefixing the first piece prefixes the joined string. */
  lemma {:induction false} JoinCons(c: char, parts: seq<string>, sep: char)
    requires |parts| >= 1
    ensures Join([[c] + parts[0]] + parts[1..], sep) == [c] + Join(parts, sep)
  {
  }

  /** Splitting a join of separator-free pieces gives the pieces back. */
  lemma {:induction false} SplitJoin(parts: seq<string>, sep: char)
    requires |parts| >= 1
    requires forall k :: 0 <= k < |parts| ==> sep !in parts[k]
    ensures Split(Join(parts, sep), sep) == parts
    decreases |parts|, |parts[0]|
  {
    if |parts| == 1 {
      SplitNoSep(parts[0], sep);
    } else if parts[0] == [] {
      var s := Join(parts, sep);
      assert s == [sep] + Join(parts[1..], sep);
      assert s[1..] == Join(parts[1..], sep);
      SplitJoin(parts[1..], sep);
      assert Split(s, sep) == [[]] + parts[1..];
      assert parts == [[]] + parts[1..];
    } else {
      var c := parts[0][0];
      var tail := [parts[0][1..]] + parts[1..];
      assert tail[1..] == parts[1..];
      forall k | 0 <= k < |tail| ensures sep !in tail[k] {
        if k == 0 {
          assert sep !in parts[0];
        } else {
          assert tail[k] == parts[k];
        }
      }
      SplitJoin(tail, sep);
      JoinCons(c, tail, sep);
      assert [c] + tail[0] == parts[0];
      assert [[c] + tail[0]] + tail[1..] == parts;
      var s := Join(parts, sep);
      assert s == [c] + Join(tail, sep);
      assert s[1..] == Join(tail, sep);
      assert s[0] == c && c != sep;
    }
  }

  /** A string without separators splits into itself alone. */
  lemma {:induction false} SplitNoSep(s: string, sep: char)
    requires sep !in s
    ensures Split(s, sep) == [s]
    decreases |s|
  {
    if s != [] {
      assert sep !in s[1..];
      SplitNoSep(s[1..], sep);
      assert s == [s[0]] + s[1..];
    }
  }

  /** `pathParts`: the `/`-separated segments of a path with one leading and
      one trailing slash removed. */
  function PathParts(path: string): (parts: seq<string>)
    ensures |parts| >= 1
    ensures forall k :: 0 <= k < |parts| ==> Slash !in parts[k]
  {
    Split(TrimSuffix(TrimPrefix(path, Slash), Slash), Slash)
  }

  /** The path is its segments joined by `/`, preceded by a `/` exactly when
      the path starts with one, and followed by a `/` exactly when what is left
      after removing that leading `/` ends with one. */
  lemma PathPartsJoin(path: string)
    ensures var lead := |path| > 0 && path[0] == Slash;
      var t := if lead then path[1..] else path;
      var trail := |t| > 0 && t[|t| - 1] == Slash;
      path == (if lead then [Slash] else []) + Join(PathParts(path), Slash) + (if trail then [Slash] else [])
  {
    var t := TrimSuffix(TrimPrefix(path, Slash), Slash);
    JoinSplit(t, Slash);
  }

  /** Segments that are non-empty and slash-free survive a trip through a
      path, with or without a leading and a trailing slash. */
  lemma PathPartsRoundTrip(parts: seq<string>, leading: bool, trailing: bool)
    requires |parts| >= 1
    requires forall k :: 0 <= k < |parts| ==> parts[k] != [] && Slash !in parts[k]
    ensures var body := Join(parts, Slash);
      PathParts((if leading then [Slash] else []) + body + (if trailing then [Slash] else [])) == parts
  {
    var body := Join(parts, Slash);
    JoinEnds(parts, Slash);
    var path := (if leading then [Slash] else []) + body + (if trailing then [Slash] else []);
    assert TrimPrefix(path, Slash) == body + (if trailing then [Slash] else []);
    assert TrimSuffix(TrimPrefix(path, Slash), Slash) == body;
    SplitJoin(parts, Slash);
  }

  /** A join of non-empty separator-free pieces neither starts nor ends with the separator. */
  lemma {:induction false} JoinEnds(parts: seq<string>, sep: char)
    requires |parts| >= 1
    requires forall k :: 0 <= k < |parts| ==> parts[k] != [] && sep !in parts[k]
    ensures var s := Join(parts, sep); |s| > 0 && s[0] != sep && s[|s| - 1] != sep
  {
    if |parts| > 1 {
      forall k | 0 <= k < |parts| - 1 ensures parts[1..][k] != [] && sep !in parts[1..][k] {
        assert parts[1..][k] == parts[k + 1];
      }
      JoinEnds(parts[1..], sep);
      var s := Join(parts, sep);
      assert s[0] == parts[0][0];
      assert s[|s| - 1] == Join(parts[1..], sep)[|Join(parts[1..], sep)| - 1];
    }
  }
}
