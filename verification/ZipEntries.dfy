/** Bounded extraction of an archive: declared sizes may lie, so what is read is bounded too. */
module ZipEntries {
  import opened Wrappers
  import opened Text

  const U64_MAX: nat := 0xFFFF_FFFF_FFFF_FFFF

  type u64 = n: int | 0 <= n <= U64_MAX

  type Bytes = seq<bv8>

  datatype ZipLimits = ZipLimits(maxEntries: nat, maxEntryBytes: u64, maxTotalBytes: u64, maxRatio: u64)

  /** One archive entry: what its headers declare, and the stream that decompressing it produces. */
  datatype Entry = Entry(
    directory: bool, name: string, declared: u64, compressed: u64, stream: Bytes, unreadable: bool)

  datatype ZipError =
    | TooManyEntries
    | EntryBytes(name: string)
    | CompressionRatio(name: string)
    | TotalBytes(name: string)
    | Unreadable(name: string)

  type Entries = map<string, Bytes>

  // ---------------------------------------------------------------- saturating arithmetic

  function SaturatingAdd(a: u64, b: u64): u64 {
    if a + b > U64_MAX then U64_MAX else a + b
  }

  function SaturatingSub(a: u64, b: u64): u64 {
    if a < b then 0 else a - b
  }

  function SaturatingMul(a: u64, b: u64): u64 {
    if a * b > U64_MAX then U64_MAX else a * b
  }

  function Min(a: u64, b: u64): u64 {
    if a < b then a else b
  }

  // ---------------------------------------------------------------- the reject checks

  predicate DeclaredEntryRejected(entry: Entry, limits: ZipLimits) {
    entry.declared > limits.maxEntryBytes
  }

  predicate RatioRejected(entry: Entry, limits: ZipLimits) {
    && entry.declared != 0
    && (entry.compressed == 0 || entry.declared > SaturatingMul(entry.compressed, limits.maxRatio))
  }

  predicate DeclaredTotalRejected(total: u64, entry: Entry, limits: ZipLimits) {
    SaturatingAdd(total, entry.declared) > limits.maxTotalBytes
  }

  /** Saturation never changes the verdict of the ratio check: it is the exact comparison. */
  lemma RatioRejectedIff(entry: Entry, limits: ZipLimits)
    ensures RatioRejected(entry, limits) <==> entry.declared > entry.compressed * limits.maxRatio
  {
    if entry.compressed == 0 {
      assert entry.compressed * limits.maxRatio == 0;
    }
  }

  /** The declared total is compared exactly, except that the largest limit rejects nothing. */
  lemma DeclaredTotalRejectedIff(total: u64, entry: Entry, limits: ZipLimits)
    ensures DeclaredTotalRejected(total, entry, limits) <==>
              total + entry.declared > limits.maxTotalBytes && limits.maxTotalBytes < U64_MAX
  {
  }

  // ---------------------------------------------------------------- reading

  function ReadLimit(total: u64, limits: ZipLimits): u64 {
    Min(SaturatingAdd(limits.maxEntryBytes, 1),
        SaturatingAdd(SaturatingSub(limits.maxTotalBytes, total), 1))
  }

  /** The bytes read of a stream: at most `limit` of them. */
  function Take(stream: Bytes, limit: u64): Bytes {
    if |stream| <= limit then stream else stream[..limit]
  }

  /** One file entry: the bytes kept and the new total, or why the archive is refused. */
  function ReadEntry(total: u64, entry: Entry, limits: ZipLimits): Result<(Bytes, u64), ZipError> {
    if DeclaredEntryRejected(entry, limits) then Failure(EntryBytes(NameOf(entry)))
    else if RatioRejected(entry, limits) then Failure(CompressionRatio(NameOf(entry)))
    else if DeclaredTotalRejected(total, entry, limits) then Failure(TotalBytes(NameOf(entry)))
    else if entry.unreadable then Failure(Unreadable(NameOf(entry)))
    else
      var data := Take(entry.stream, ReadLimit(total, limits));
      if |data| > limits.maxEntryBytes then Failure(EntryBytes(NameOf(entry)))
      else if total + |data| > U64_MAX then Failure(TotalBytes(NameOf(entry)))
      else if total + |data| > limits.maxTotalBytes then Failure(TotalBytes(NameOf(entry)))
      else Success((data, total + |data|))
  }

  function NameOf(entry: Entry): string {
    Replace(entry.name, '\\', "/")
  }

  function ReadFrom(entries: seq<Entry>, limits: ZipLimits, total: u64, found: Entries): Result<Entries, ZipError>
    decreases |entries|
  {
    if entries == [] then Success(found)
    else if entries[0].directory then ReadFrom(entries[1..], limits, total, found)
    else
      match ReadEntry(total, entries[0], limits)
      case Failure(e) => Failure(e)
      case Success((data, next)) =>
        ReadFrom(entries[1..], limits, next, found[NameOf(entries[0]) := data])
  }

  function Extract(archive: seq<Entry>, limits: ZipLimits): Result<Entries, ZipError> {
    if |archive| > limits.maxEntries then Failure(TooManyEntries) else ReadFrom(archive, limits, 0, map[])
  }

  /** `read_zip_entries`. */
  method ReadZipEntries(archive: seq<Entry>, limits: ZipLimits) returns (r: Result<Entries, ZipError>)
    ensures r == Extract(archive, limits)
  {
    if |archive| > limits.maxEntries {
      return Failure(TooManyEntries);
    }
    hide DeclaredEntryRejected, RatioRejected, DeclaredTotalRejected, SaturatingAdd, SaturatingSub, Take, NameOf, Min,
         ReadFrom;
    assert archive[0..] == archive;
    var total: u64 := 0;
    var entries: Entries := map[];
    for index := 0 to |archive|
      invariant Extract(archive, limits) == ReadFrom(archive[index..], limits, total, entries)
    {
      var file := archive[index];
      ReadFromFirst(archive, index, limits, total, entries);
      if !file.directory {
        var name := NameOf(file);
        if DeclaredEntryRejected(file, limits) {
          return Failure(EntryBytes(name));
        }
        if RatioRejected(file, limits) {
          return Failure(CompressionRatio(name));
        }
        if DeclaredTotalRejected(total, file, limits) {
          return Failure(TotalBytes(name));
        }
        var readLimit := Min(SaturatingAdd(limits.maxEntryBytes, 1),
                             SaturatingAdd(SaturatingSub(limits.maxTotalBytes, total), 1));
        if file.unreadable {
          return Failure(Unreadable(name));
        }
        var data := Take(file.stream, readLimit);
        if |data| > limits.maxEntryBytes {
          return Failure(EntryBytes(name));
        }
        if total + |data| > U64_MAX {
          return Failure(TotalBytes(name));
        }
        total := total + |data|;
        if total > limits.maxTotalBytes {
          return Failure(TotalBytes(name));
        }
        entries := entries[name := data];
      }
    }
    assert archive[|archive|..] == [];
    NothingToRead(limits, total, entries);
    return Success(entries);
  }

  lemma ReadFromFirst(archive: seq<Entry>, i: nat, limits: ZipLimits, total: u64, found: Entries)
    requires i < |archive|
    ensures ReadFrom(archive[i..], limits, total, found) ==
            if archive[i].directory then ReadFrom(archive[i + 1..], limits, total, found)
            else match ReadEntry(total, archive[i], limits)
              case Failure(e) => Failure(e)
              case Success((data, next)) =>
                ReadFrom(archive[i + 1..], limits, next, found[NameOf(archive[i]) := data])
  {
    hide ReadEntry, NameOf;
    assert archive[i..][0] == archive[i] && archive[i..][1..] == archive[i + 1..];
  }

  lemma NothingToRead(limits: ZipLimits, total: u64, found: Entries)
    ensures ReadFrom([], limits, total, found) == Success(found)
  {
  }

  // ---------------------------------------------------------------- what is retained

  /** The bytes held by a set of entries. */
  ghost function Retained(entries: Entries): nat
    decreases |entries|
  {
    if entries == map[] then 0
    else
      var name :| name in entries;
      |entries[name]| + Retained(entries - {name})
  }

  lemma {:induction false} RetainedWithout(entries: Entries, name: string)
    requires name in entries
    ensures Retained(entries) == |entries[name]| + Retained(entries - {name})
    decreases |entries|
  {
    var first :| first in entries && Retained(entries) == |entries[first]| + Retained(entries - {first});
    if first != name {
      var a, b := entries - {first}, entries - {name};
      RetainedWithout(a, name);
      RetainedWithout(b, first);
      assert a - {name} == b - {first};
    }
  }

  /** Inserting adds at most the new bytes: a repeated name frees what it replaces. */
  lemma RetainedInsert(entries: Entries, name: string, data: Bytes)
    ensures Retained(entries[name := data]) <= Retained(entries) + |data|
  {
    var next := entries[name := data];
    RetainedWithout(next, name);
    if name in entries {
      RetainedWithout(entries, name);
      assert next - {name} == entries - {name};
    } else {
      assert next - {name} == entries;
    }
  }

  ghost predicate Bounded(entries: Entries, limits: ZipLimits, total: nat) {
    && (forall name :: name in entries ==> |entries[name]| <= limits.maxEntryBytes)
    && Retained(entries) <= total
  }

  lemma {:induction false} ReadStaysBounded(entries: seq<Entry>, limits: ZipLimits, total: u64, found: Entries)
    requires total <= limits.maxTotalBytes && Bounded(found, limits, total)
    ensures var r := ReadFrom(entries, limits, total, found);
            r.Success? ==> Bounded(r.value, limits, limits.maxTotalBytes)
    decreases |entries|
  {
    hide ReadLimit, Take, Retained, NameOf, RatioRejected, DeclaredTotalRejected, DeclaredEntryRejected;
    if entries != [] {
      if entries[0].directory {
        ReadStaysBounded(entries[1..], limits, total, found);
      } else {
        var r := ReadEntry(total, entries[0], limits);
        if r.Success? {
          var (data, next) := r.value;
          RetainedInsert(found, NameOf(entries[0]), data);
          ReadStaysBounded(entries[1..], limits, next, found[NameOf(entries[0]) := data]);
        }
      }
    }
  }

  /**
   Every accepted extraction stays within the limits, whatever the headers declared and however
   often names repeat.
   */
  lemma ExtractionIsBounded(archive: seq<Entry>, limits: ZipLimits)
    ensures var r := Extract(archive, limits);
            r.Success? ==>
              && |archive| <= limits.maxEntries
              && (forall name :: name in r.value ==> |r.value[name]| <= limits.maxEntryBytes)
              && Retained(r.value) <= limits.maxTotalBytes
  {
    if |archive| <= limits.maxEntries {
      ReadStaysBounded(archive, limits, 0, map[]);
    }
  }

  // ---------------------------------------------------------------- nothing is cut short

  /** Both limits are the largest u64, so one byte past the limit cannot be asked for. */
  predicate Unlimited(limits: ZipLimits) {
    limits.maxEntryBytes == U64_MAX && limits.maxTotalBytes == U64_MAX
  }

  /** An accepted entry is whole, except for a first stream past 2^64 - 1 bytes under no limits. */
  lemma EntryWholeIff(total: u64, entry: Entry, limits: ZipLimits)
    requires total <= limits.maxTotalBytes && ReadEntry(total, entry, limits).Success?
    ensures ReadEntry(total, entry, limits).value.0 == entry.stream <==>
              !(Unlimited(limits) && total == 0 && |entry.stream| > U64_MAX)
  {
    hide RatioRejected, DeclaredTotalRejected, DeclaredEntryRejected, NameOf;
  }

  /** The whole contents of an archive: the last file of each name. */
  function Contents(entries: seq<Entry>, found: Entries): Entries
    decreases |entries|
  {
    if entries == [] then found
    else if entries[0].directory then Contents(entries[1..], found)
    else Contents(entries[1..], found[NameOf(entries[0]) := entries[0].stream])
  }

  /** Files whose streams fit in 64 bits. */
  predicate Addressable(entries: seq<Entry>) {
    forall i :: 0 <= i < |entries| && !entries[i].directory ==> |entries[i].stream| <= U64_MAX
  }

  lemma {:induction false} ReadKeepsAll(entries: seq<Entry>, limits: ZipLimits, total: u64, found: Entries)
    requires total <= limits.maxTotalBytes && (Unlimited(limits) ==> Addressable(entries))
    ensures var r := ReadFrom(entries, limits, total, found);
            r.Success? ==> r.value == Contents(entries, found)
    decreases |entries|
  {
    hide ReadLimit, Take, NameOf, RatioRejected, DeclaredTotalRejected, DeclaredEntryRejected, Unlimited;
    if entries != [] {
      if entries[0].directory {
        ReadKeepsAll(entries[1..], limits, total, found);
      } else {
        var r := ReadEntry(total, entries[0], limits);
        if r.Success? {
          EntryWholeIff(total, entries[0], limits);
          ReadKeepsAll(entries[1..], limits, r.value.1, found[NameOf(entries[0]) := r.value.0]);
        }
      }
    }
  }

  /** No accepted archive loses a byte, unless there are no limits and a stream passes 64 bits. */
  lemma ExtractionIsWhole(archive: seq<Entry>, limits: ZipLimits)
    requires Unlimited(limits) ==> Addressable(archive)
    ensures Extract(archive, limits).Success? ==> Extract(archive, limits).value == Contents(archive, map[])
  {
    if |archive| <= limits.maxEntries {
      ReadKeepsAll(archive, limits, 0, map[]);
    }
  }

  /**
   The exception is one of arithmetic alone: a sequence of this length can be written down here, but
   no memory holds such a stream, so the code never gets to cut one.
   */
  lemma UnlimitedCanCut(name: string, ratio: u64)
    ensures var entry := Entry(false, name, 0, 0, seq(U64_MAX + 1, i => 0), false);
            var limits := ZipLimits(1, U64_MAX, U64_MAX, ratio);
            && Extract([entry], limits).Success?
            && Extract([entry], limits).value != Contents([entry], map[])
  {
    var entry := Entry(false, name, 0, 0, seq(U64_MAX + 1, i => 0), false);
    var limits := ZipLimits(1, U64_MAX, U64_MAX, ratio);
    hide ReadEntry, NameOf;
    assert [entry][1..] == [];
    var found := map[][NameOf(entry) := ReadEntry(0, entry, limits).value.0];
    assert ReadFrom([], limits, ReadEntry(0, entry, limits).value.1, found) == Success(found);
    assert Extract([entry], limits) == Success(found);
    var whole := map[][NameOf(entry) := entry.stream];
    assert Contents([entry], map[]) == whole;
    assert found[NameOf(entry)] != whole[NameOf(entry)];
  }

  // ---------------------------------------------------------------- when an archive is accepted

  /** The real bytes of the files before entry `i`. */
  function RealTotal(entries: seq<Entry>, i: nat): nat
    requires i <= |entries|
  {
    if i == 0 then 0
    else RealTotal(entries, i - 1) + if entries[i - 1].directory then 0 else |entries[i - 1].stream|
  }

  /** Declared and real sizes of one file, given the real bytes before it, respect the limits. */
  predicate Acceptable(entry: Entry, before: nat, limits: ZipLimits) {
    entry.directory ||
    (&& entry.declared <= limits.maxEntryBytes
     && entry.declared <= entry.compressed * limits.maxRatio
     && (before + entry.declared <= limits.maxTotalBytes || limits.maxTotalBytes == U64_MAX)
     && !entry.unreadable
     && |entry.stream| <= limits.maxEntryBytes
     && before + |entry.stream| <= limits.maxTotalBytes)
  }

  lemma ReadEntryIff(total: u64, entry: Entry, limits: ZipLimits)
    requires total <= limits.maxTotalBytes && !entry.directory
    requires Unlimited(limits) ==> |entry.stream| <= U64_MAX
    ensures ReadEntry(total, entry, limits).Success? <==> Acceptable(entry, total, limits)
    ensures ReadEntry(total, entry, limits).Success? ==>
              ReadEntry(total, entry, limits).value == (entry.stream, total + |entry.stream|)
  {
    RatioRejectedIff(entry, limits);
    DeclaredTotalRejectedIff(total, entry, limits);
    hide RatioRejected, DeclaredTotalRejected, NameOf;
  }

  lemma {:induction false} ReadFromIff(archive: seq<Entry>, i: nat, limits: ZipLimits, found: Entries)
    requires i <= |archive| && RealTotal(archive, i) <= limits.maxTotalBytes
    requires Unlimited(limits) ==> Addressable(archive)
    ensures ReadFrom(archive[i..], limits, RealTotal(archive, i), found).Success? <==>
              forall k :: i <= k < |archive| ==> Acceptable(archive[k], RealTotal(archive, k), limits)
    decreases |archive| - i
  {
    hide ReadEntry, Acceptable, NameOf, Unlimited;
    if i < |archive| {
      var entry, total := archive[i], RealTotal(archive, i);
      assert archive[i..][0] == entry && archive[i..][1..] == archive[i + 1..];
      if entry.directory {
        DirectoryAcceptable(entry, total, limits);
        ReadFromIff(archive, i + 1, limits, found);
      } else {
        ReadEntryIff(total, entry, limits);
        if ReadEntry(total, entry, limits).Success? {
          AcceptableFits(entry, total, limits);
          ReadFromIff(archive, i + 1, limits, found[NameOf(entry) := entry.stream]);
        }
      }
    }
  }

  lemma DirectoryAcceptable(entry: Entry, before: nat, limits: ZipLimits)
    requires entry.directory
    ensures Acceptable(entry, before, limits)
  {
  }

  lemma AcceptableFits(entry: Entry, before: nat, limits: ZipLimits)
    requires Acceptable(entry, before, limits) && !entry.directory
    ensures before + |entry.stream| <= limits.maxTotalBytes
  {
  }

  /**
   An archive is accepted exactly when it has few enough entries and every file's declared and
   real sizes respect the limits, after the real bytes of the files before it.
   */
  lemma AcceptedIff(archive: seq<Entry>, limits: ZipLimits)
    requires Unlimited(limits) ==> Addressable(archive)
    ensures Extract(archive, limits).Success? <==>
              && |archive| <= limits.maxEntries
              && forall k :: 0 <= k < |archive| ==> Acceptable(archive[k], RealTotal(archive, k), limits)
  {
    hide Acceptable;
    if |archive| <= limits.maxEntries {
      ReadFromIff(archive, 0, limits, map[]);
      assert archive[0..] == archive;
    }
  }

  // ---------------------------------------------------------------- names and refusals

  /** Names keep every character but the backslash, which becomes a slash. */
  lemma {:induction false} NameKeeps(name: string)
    ensures |Replace(name, '\\', "/")| == |name|
    ensures forall i :: 0 <= i < |name| ==>
              Replace(name, '\\', "/")[i] == if name[i] == '\\' then '/' else name[i]
  {
    if name != [] {
      NameKeeps(name[1..]);
    }
  }

  /** The file at `k` goes by this name. */
  ghost predicate Named(entries: seq<Entry>, name: string, k: nat) {
    && k < |entries| && !entries[k].directory && |entries[k].name| == |name|
    && forall i :: 0 <= i < |name| ==> name[i] == if entries[k].name[i] == '\\' then '/' else entries[k].name[i]
  }

  lemma NamedIff(entries: seq<Entry>, name: string, k: nat)
    ensures Named(entries, name, k) <==> k < |entries| && !entries[k].directory && NameOf(entries[k]) == name
  {
    if k < |entries| {
      NameKeeps(entries[k].name);
    }
  }

  lemma NamedTail(entries: seq<Entry>, name: string, k: nat)
    requires entries != []
    ensures Named(entries, name, k + 1) <==> Named(entries[1..], name, k)
  {
  }

  /** What files of other names leave alone. */
  lemma {:induction false} OthersKept(entries: seq<Entry>, found: Entries, name: string)
    requires forall k: nat :: !Named(entries, name, k)
    ensures name in Contents(entries, found) <==> name in found
    ensures name in found ==> Contents(entries, found)[name] == found[name]
    decreases |entries|
  {
    hide NameOf, Named;
    if entries != [] {
      NamedIff(entries, name, 0);
      forall k: nat
        ensures !Named(entries[1..], name, k)
      {
        NamedTail(entries, name, k);
      }
      OthersKept(
        entries[1..], if entries[0].directory then found else found[NameOf(entries[0]) := entries[0].stream], name);
    }
  }

  /** The contents hold every file's name, with the stream of the last file of that name. */
  lemma {:induction false} LastFileKept(entries: seq<Entry>, found: Entries, name: string, k: nat)
    requires Named(entries, name, k) && forall j: nat :: j > k ==> !Named(entries, name, j)
    ensures name in Contents(entries, found) && Contents(entries, found)[name] == entries[k].stream
    decreases |entries|
  {
    hide NameOf, Named;
    NamedIff(entries, name, k);
    var next := if entries[0].directory then found else found[NameOf(entries[0]) := entries[0].stream];
    forall j: nat | j >= k
      ensures !Named(entries[1..], name, j)
    {
      NamedTail(entries, name, j);
    }
    if k == 0 {
      OthersKept(entries[1..], next, name);
    } else {
      NamedTail(entries, name, k - 1);
      LastFileKept(entries[1..], next, name, k - 1);
    }
  }

  /** An accepted archive holds exactly the names of its files, each with the whole of its last file. */
  lemma ExtractedByName(archive: seq<Entry>, limits: ZipLimits, name: string)
    requires (Unlimited(limits) ==> Addressable(archive)) && Extract(archive, limits).Success?
    ensures var r := Extract(archive, limits).value;
            && (name in r <==> exists k: nat :: Named(archive, name, k))
            && (name in r ==> exists k: nat ::
                  LastNamed(archive, name, k) && r[name] == archive[k].stream)
  {
    hide Named, Unlimited, Addressable, Contents;
    ExtractionIsWhole(archive, limits);
    hide Extract;
    if exists k: nat :: Named(archive, name, k) {
      var first: nat :| Named(archive, name, first);
      var k := LastOf(archive, name, first);
      LastFileKept(archive, map[], name, k);
      assert LastNamed(archive, name, k);
    } else {
      OthersKept(archive, map[], name);
    }
  }

  ghost predicate LastNamed(entries: seq<Entry>, name: string, k: nat) {
    Named(entries, name, k) && forall j: nat :: j > k ==> !Named(entries, name, j)
  }

  lemma {:induction false} LastOf(entries: seq<Entry>, name: string, from: nat) returns (k: nat)
    requires Named(entries, name, from)
    ensures Named(entries, name, k) && forall j: nat :: j > k ==> !Named(entries, name, j)
    decreases |entries| - from
  {
    if next: nat :| next > from && Named(entries, name, next) {
      k := LastOf(entries, name, next);
    } else {
      k := from;
    }
  }

  /** A limit that an archive really breaks. */
  ghost predicate Breaks(archive: seq<Entry>, limits: ZipLimits, error: ZipError) {
    match error
    case TooManyEntries => |archive| > limits.maxEntries
    case EntryBytes(name) =>
      exists k: nat :: Named(archive, name, k)
        && (archive[k].declared > limits.maxEntryBytes || |archive[k].stream| > limits.maxEntryBytes)
    case CompressionRatio(name) =>
      exists k: nat :: Named(archive, name, k) && archive[k].declared > archive[k].compressed * limits.maxRatio
    case TotalBytes(name) =>
      exists k: nat :: Named(archive, name, k)
        && (RealTotal(archive, k) + archive[k].declared > limits.maxTotalBytes
            || RealTotal(archive, k) + |archive[k].stream| > limits.maxTotalBytes)
    case Unreadable(name) => exists k: nat :: Named(archive, name, k) && archive[k].unreadable
  }

  /** A refusal names a limit that is really broken, and by which file. */
  lemma RefusalBreaks(archive: seq<Entry>, limits: ZipLimits)
    requires Unlimited(limits) ==> Addressable(archive)
    ensures Extract(archive, limits).Failure? ==> Breaks(archive, limits, Extract(archive, limits).error)
  {
    hide Breaks, Unlimited, Addressable;
    if |archive| <= limits.maxEntries {
      assert archive[0..] == archive;
      ReadFromBreaks(archive, 0, limits, map[]);
    } else {
      TooManyBreaks(archive, limits);
    }
  }

  lemma TooManyBreaks(archive: seq<Entry>, limits: ZipLimits)
    requires |archive| > limits.maxEntries
    ensures Breaks(archive, limits, TooManyEntries)
  {
  }

  lemma {:induction false} ReadFromBreaks(archive: seq<Entry>, i: nat, limits: ZipLimits, found: Entries)
    requires i <= |archive| && RealTotal(archive, i) <= limits.maxTotalBytes
    requires Unlimited(limits) ==> Addressable(archive)
    ensures var r := ReadFrom(archive[i..], limits, RealTotal(archive, i), found);
            r.Failure? ==> Breaks(archive, limits, r.error)
    decreases |archive| - i
  {
    hide ReadEntry, Acceptable, NameOf, Unlimited, Breaks;
    if i < |archive| {
      var entry, total := archive[i], RealTotal(archive, i);
      assert archive[i..][0] == entry && archive[i..][1..] == archive[i + 1..];
      if entry.directory {
        ReadFromBreaks(archive, i + 1, limits, found);
      } else {
        ReadEntryIff(total, entry, limits);
        if ReadEntry(total, entry, limits).Success? {
          AcceptableFits(entry, total, limits);
          ReadFromBreaks(archive, i + 1, limits, found[NameOf(entry) := entry.stream]);
        } else {
          EntryBreaks(archive, i, limits);
        }
      }
    }
  }

  lemma EntryBreaks(archive: seq<Entry>, i: nat, limits: ZipLimits)
    requires i < |archive| && !archive[i].directory && RealTotal(archive, i) <= limits.maxTotalBytes
    requires ReadEntry(RealTotal(archive, i), archive[i], limits).Failure?
    ensures Breaks(archive, limits, ReadEntry(RealTotal(archive, i), archive[i], limits).error)
  {
    hide Named, NameOf, RealTotal;
    NamedIff(archive, NameOf(archive[i]), i);
    RatioRejectedIff(archive[i], limits);
    assert Named(archive, NameOf(archive[i]), i);
  }
}
