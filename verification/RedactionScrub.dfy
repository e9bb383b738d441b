/** The byte scan that shows removed text is gone from files (packages/store/src/redaction-scrub.ts). */
module RedactionScrub {
  import opened Prelude

  type Byte = bv8

  type Bytes = seq<Byte>

  /**
   * How many bytes the k-th read of a file is willing to return; reads beyond the list return all
   * they are asked for. As a scan makes finitely many reads, every behaviour is some list.
   */
  type Schedule = seq<nat>

  const SCAN_CHUNK_BYTES: nat := 4 * 1024 * 1024

  function Min(a: nat, b: nat): nat {
    if a < b then a else b
  }

  // ---------- the naive search ----------

  predicate OccursAt(needle: Bytes, text: Bytes, k: nat) {
    k + |needle| <= |text| && text[k..k + |needle|] == needle
  }

  ghost predicate Occurs(needle: Bytes, text: Bytes) {
    exists k: nat :: OccursAt(needle, text, k)
  }

  ghost predicate IsResidual(needles: seq<Bytes>, text: Bytes, i: nat) {
    i < |needles| && needles[i] != [] && Occurs(needles[i], text)
  }

  /** Indexes of the nonempty needles that occur contiguously in the text. */
  ghost function Residual(needles: seq<Bytes>, text: Bytes): set<nat> {
    set i: nat | i < |needles| && IsResidual(needles, text, i)
  }

  // ---------- the chunks ----------

  /** Keeping that many bytes keeps all but the last byte of any needle. */
  ghost predicate Covers(overlap: nat, needles: seq<Bytes>) {
    forall i :: 0 <= i < |needles| ==> |needles[i]| <= overlap + 1
  }

  /** The longest needle's length less one, or nothing when there is no needle or only empty ones. */
  method OverlapFor(needles: seq<Bytes>) returns (overlap: nat)
    ensures Covers(overlap, needles)
    ensures overlap > 0 ==> exists i :: 0 <= i < |needles| && |needles[i]| == overlap + 1
  {
    var longest := 0;
    for i := 0 to |needles|
      invariant forall j :: 0 <= j < i ==> |needles[j]| <= longest
      invariant longest > 0 ==> exists j :: 0 <= j < i && |needles[j]| == longest
    {
      if |needles[i]| > longest {
        longest := |needles[i]|;
      }
    }
    overlap := if longest > 0 then longest - 1 else 0;
  }

  /** What a read at the position returns: never past a chunk or the end of the file; 0 ends the scan. */
  function ReadCount(returned: Schedule, k: nat, position: nat, size: nat): nat
    requires position <= size
  {
    Min(Min(if k < |returned| then returned[k] else SCAN_CHUNK_BYTES, SCAN_CHUNK_BYTES), size - position)
  }

  /** Where a scan that is about to make its k-th read at the position will have stopped reading. */
  function ScannedTo(returned: Schedule, k: nat, position: nat, size: nat): (n: nat)
    requires position <= size
    ensures position <= n <= size
    decreases size - position
  {
    if position == size || ReadCount(returned, k, position, size) == 0 then position
    else ScannedTo(returned, k + 1, position + ReadCount(returned, k, position, size), size)
  }

  /** Short reads are harmless: while every read returns something, the whole file is scanned. */
  lemma {:induction false} PositiveReadsReachTheEnd(returned: Schedule, k: nat, position: nat, size: nat)
    requires position <= size
    ensures 0 !in returned ==> ScannedTo(returned, k, position, size) == size
    decreases size - position
  {
    if position < size && ReadCount(returned, k, position, size) > 0 {
      PositiveReadsReachTheEnd(returned, k + 1, position + ReadCount(returned, k, position, size), size);
    }
  }

  lemma OccursInSlice(needle: Bytes, text: Bytes, lo: nat, hi: nat)
    requires lo <= hi <= |text| && Occurs(needle, text[lo..hi])
    ensures Occurs(needle, text[..hi])
  {
    var k: nat :| OccursAt(needle, text[lo..hi], k);
    assert text[..hi][lo + k..lo + k + |needle|] == text[lo..hi][k..k + |needle|];
    assert OccursAt(needle, text[..hi], lo + k);
  }

  /** An occurrence that the earlier bytes do not contain lies in the window. */
  lemma OccurrenceInWindow(needle: Bytes, text: Bytes, lo: nat, mid: nat, hi: nat, k: nat)
    requires lo <= mid <= hi <= |text| && OccursAt(needle, text[..hi], k) && (lo == 0 || |needle| <= mid - lo + 1)
    requires k + |needle| > mid
    ensures Occurs(needle, text[lo..hi])
  {
    assert k >= lo;
    assert text[lo..hi][k - lo..k - lo + |needle|] == text[..hi][k..k + |needle|];
    assert OccursAt(needle, text[lo..hi], k - lo);
  }

  /** A window that carries over all but one byte of the needle misses no occurrence that crosses into it. */
  lemma WindowMissesNothing(needle: Bytes, text: Bytes, lo: nat, mid: nat, hi: nat)
    requires lo <= mid <= hi <= |text| && (lo == 0 || |needle| <= mid - lo + 1)
    ensures Occurs(needle, text[..hi]) <==> Occurs(needle, text[..mid]) || Occurs(needle, text[lo..hi])
  {
    if Occurs(needle, text[lo..hi]) {
      OccursInSlice(needle, text, lo, hi);
    }
    if Occurs(needle, text[..mid]) {
      var k: nat :| OccursAt(needle, text[..mid], k);
      assert text[..hi][k..k + |needle|] == text[..mid][k..k + |needle|];
      assert OccursAt(needle, text[..hi], k);
    }
    if Occurs(needle, text[..hi]) {
      var k: nat :| OccursAt(needle, text[..hi], k);
      if k + |needle| <= mid {
        assert text[..mid][k..k + |needle|] == text[..hi][k..k + |needle|];
        assert OccursAt(needle, text[..mid], k);
      } else {
        OccurrenceInWindow(needle, text, lo, mid, hi, k);
      }
    }
  }

  /** The needles found so far are those in the bytes before the position. */
  ghost predicate FoundBefore(inFile: set<nat>, needles: seq<Bytes>, text: Bytes, position: nat) {
    position <= |text| && inFile == Residual(needles, text[..position])
  }

  /** One window more: what was found before, and what occurs in the window. */
  lemma ResidualGrows(inFile: set<nat>, needles: seq<Bytes>, text: Bytes, overlap: nat, carried: nat, position: nat, next: nat)
    requires FoundBefore(inFile, needles, text, position) && position <= next <= |text|
    requires Covers(overlap, needles) && carried == Min(overlap, position)
    ensures FoundBefore(inFile + Residual(needles, text[position - carried..next]), needles, text, next)
  {
    var lo := position - carried;
    forall i: nat | i < |needles|
      ensures IsResidual(needles, text[..next], i) <==> IsResidual(needles, text[..position], i) || IsResidual(needles, text[lo..next], i)
    {
      WindowMissesNothing(needles[i], text, lo, position, next);
    }
  }

  /** The rest of a scan, one read further. */
  lemma ScannedOneRead(returned: Schedule, k: nat, position: nat, size: nat)
    requires position < size && ReadCount(returned, k, position, size) > 0
    ensures ScannedTo(returned, k, position, size) ==
            ScannedTo(returned, k + 1, position + ReadCount(returned, k, position, size), size)
  {
  }

  /** Buffer.indexOf: whether the needle occurs in the first n bytes of the buffer. */
  method Contains(buffer: array<Byte>, n: nat, needle: Bytes) returns (found: bool)
    requires n <= buffer.Length
    ensures found <==> Occurs(needle, buffer[..n])
  {
    var k := 0;
    while k + |needle| <= n
      invariant forall j: nat :: j < k ==> !OccursAt(needle, buffer[..n], j)
      decreases n - k
    {
      if buffer[k..k + |needle|] == needle {
        assert buffer[..n][k..k + |needle|] == buffer[k..k + |needle|];
        assert OccursAt(needle, buffer[..n], k);
        return true;
      }
      assert buffer[..n][k..k + |needle|] == buffer[k..k + |needle|];
      k := k + 1;
    }
    found := false;
  }

  /** The needles loop: adds every nonempty needle that occurs in the window. */
  method SearchWindow(buffer: array<Byte>, n: nat, needles: seq<Bytes>, inFile: set<nat>) returns (r: set<nat>)
    requires n <= buffer.Length
    ensures r == inFile + Residual(needles, buffer[..n])
  {
    r := inFile;
    for index := 0 to |needles|
      invariant r == inFile + set i: nat | i < index && IsResidual(needles, buffer[..n], i)
    {
      if |needles[index]| == 0 || index in r {
        continue;
      }
      var hit := Contains(buffer, n, needles[index]);
      if hit {
        r := r + {index};
      }
    }
  }

  /** The bytes kept are the last ones before the position. */
  ghost predicate EndsAt(kept: Bytes, file: Bytes, position: nat) {
    |kept| <= position <= |file| && kept == file[position - |kept|..position]
  }

  method ReadInto(buffer: array<Byte>, carried: nat, file: Bytes, position: nat, read: nat)
    requires carried + read <= buffer.Length && position + read <= |file|
    requires EndsAt(buffer[..carried], file, position)
    modifies buffer
    ensures EndsAt(buffer[..carried + read], file, position + read)
  {
    ghost var kept := buffer[..carried];
    forall i | 0 <= i < read {
      buffer[carried + i] := file[position + i];
    }
    assert buffer[..carried] == kept;
  }

  /** copyWithin: the last bytes of the window move to the front. */
  method KeepTail(buffer: array<Byte>, n: nat, carried: nat, file: Bytes, position: nat)
    requires carried <= n <= buffer.Length && EndsAt(buffer[..n], file, position)
    modifies buffer
    ensures EndsAt(buffer[..carried], file, position)
  {
    ghost var was := buffer[..n];
    forall i | 0 <= i < carried {
      buffer[i] := buffer[n - carried + i];
    }
    assert buffer[..carried] == was[n - carried..];
    assert was[n - carried..] == file[position - carried..position];
  }

  /** One turn of the scan: read behind the carried bytes, search the window, carry its tail over. */
  method ScanWindow(buffer: array<Byte>, overlap: nat, carried: nat, file: Bytes, position: nat, read: nat,
                    needles: seq<Bytes>, inFile: set<nat>)
    returns (inFile': set<nat>, carried': nat)
    requires carried + read <= buffer.Length && position + read <= |file|
    requires EndsAt(buffer[..carried], file, position) && Covers(overlap, needles) && carried == Min(overlap, position)
    requires FoundBefore(inFile, needles, file, position)
    modifies buffer
    ensures carried' == Min(overlap, position + read) <= buffer.Length && EndsAt(buffer[..carried'], file, position + read)
    ensures FoundBefore(inFile', needles, file, position + read)
  {
    ResidualGrows(inFile, needles, file, overlap, carried, position, position + read);
    ReadInto(buffer, carried, file, position, read);
    var window := carried + read;
    inFile' := SearchWindow(buffer, window, needles, inFile);
    carried' := Min(overlap, window);
    KeepTail(buffer, window, carried', file, position + read);
  }

  /**
   * The chunked scan is the naive search, for every needle list and every read schedule, over all the
   * bytes the reads returned; the buffer's bounds are never left.
   */
  method ScanFile(file: Bytes, needles: seq<Bytes>, found: set<nat>, returned: Schedule) returns (count: nat, found': set<nat>)
    ensures var scanned := file[..ScannedTo(returned, 0, 0, |file|)];
            found' == found + Residual(needles, scanned) && count == |Residual(needles, scanned)|
    ensures 0 !in returned ==>
            found' == found + Residual(needles, file) && count == |Residual(needles, file)|
  {
    var overlap := OverlapFor(needles);
    var buffer := new Byte[SCAN_CHUNK_BYTES + overlap];
    var inFile: set<nat> := {};
    var position, carried, k := 0, 0, 0;
    ghost var end := ScannedTo(returned, 0, 0, |file|);
    NothingYet(needles);
    assert file[..0] == [];
    while position < |file|
      invariant position <= |file| && carried == Min(overlap, position)
      invariant EndsAt(buffer[..carried], file, position)
      invariant FoundBefore(inFile, needles, file, position)
      invariant end == ScannedTo(returned, k, position, |file|)
      decreases |file| - position
    {
      var read := ReadCount(returned, k, position, |file|);
      if read == 0 {
        break;
      }
      ScannedOneRead(returned, k, position, |file|);
      k := k + 1;
      inFile, carried := ScanWindow(buffer, overlap, carried, file, position, read, needles, inFile);
      position := position + read;
    }
    count := |inFile|;
    found' := found + inFile;
    PositiveReadsReachTheEnd(returned, 0, 0, |file|);
    assert file[..|file|] == file;
  }

  lemma NothingYet(needles: seq<Bytes>)
    ensures Residual(needles, []) == {}
  {
    forall i: nat | i < |needles|
      ensures !IsResidual(needles, [], i)
    {
    }
  }

  // ---------- a list of files ----------

  datatype Hit = Hit(file: string, fragments: nat)

  datatype ScanReport = ScanReport(filesScanned: seq<string>, fragmentCount: nat, residual: seq<nat>, hits: seq<Hit>)

  function ExistingFiles(store: map<string, Bytes>, files: seq<string>): seq<string> {
    if |files| == 0 then []
    else if Last(files) in store then ExistingFiles(store, Init(files)) + [Last(files)]
    else ExistingFiles(store, Init(files))
  }

  /** Files holding a fragment, in order, each with how many distinct ones. */
  ghost function HitsIn(store: map<string, Bytes>, files: seq<string>, fragments: seq<Bytes>): seq<Hit> {
    if |files| == 0 then []
    else
      var before, f := HitsIn(store, Init(files), fragments), Last(files);
      if f in store && |Residual(fragments, store[f])| > 0 then before + [Hit(f, |Residual(fragments, store[f])|)] else before
  }

  ghost function ResidualIn(store: map<string, Bytes>, files: seq<string>, fragments: seq<Bytes>): set<nat> {
    if |files| == 0 then {}
    else if Last(files) in store then ResidualIn(store, Init(files), fragments) + Residual(fragments, store[Last(files)])
    else ResidualIn(store, Init(files), fragments)
  }

  /** The members of a set below n, ascending. */
  function Ascending(s: set<nat>, n: nat): seq<nat> {
    if n == 0 then []
    else if n - 1 in s then Ascending(s, n - 1) + [n - 1]
    else Ascending(s, n - 1)
  }

  /** The part of each existing file that the scan's reads returned. */
  function ScannedText(store: map<string, Bytes>, returned: string -> Schedule): map<string, Bytes> {
    map f | f in store :: store[f][..ScannedTo(returned(f), 0, 0, |store[f]|)]
  }

  /** The scan is the naive search over what the reads returned, for every read schedule of every file. */
  method ScanFilesForFragments(store: map<string, Bytes>, files: seq<string>, fragments: seq<Bytes>, returned: string -> Schedule)
    returns (report: ScanReport)
    ensures var texts := ScannedText(store, returned);
            report == ScanReport(ExistingFiles(store, files), |fragments|,
                                 Ascending(ResidualIn(texts, files, fragments), |fragments|), HitsIn(texts, files, fragments))
  {
    ghost var texts := ScannedText(store, returned);
    var found: set<nat> := {};
    var filesScanned: seq<string> := [];
    var hits: seq<Hit> := [];
    for i := 0 to |files|
      invariant filesScanned == ExistingFiles(store, files[..i])
      invariant found == ResidualIn(texts, files[..i], fragments)
      invariant hits == HitsIn(texts, files[..i], fragments)
    {
      var file := files[i];
      assert Init(files[..i + 1]) == files[..i];
      if file !in store {
        continue;
      }
      filesScanned := filesScanned + [file];
      if |fragments| == 0 {
        assert Residual(fragments, texts[file]) == {};
        continue;
      }
      var count;
      count, found := ScanFile(store[file], fragments, found, returned(file));
      if count > 0 {
        hits := hits + [Hit(file, count)];
      }
    }
    assert files[..|files|] == files;
    report := ScanReport(filesScanned, |fragments|, Ascending(found, |fragments|), hits);
  }

  /** With reads that return something until the end of each file, that is the files as they are. */
  lemma FullReadsScanEverything(store: map<string, Bytes>, returned: string -> Schedule)
    requires forall f :: f in store ==> 0 !in returned(f)
    ensures ScannedText(store, returned) == store
  {
    forall f | f in store
      ensures ScannedText(store, returned)[f] == store[f]
    {
      PositiveReadsReachTheEnd(returned(f), 0, 0, |store[f]|);
    }
  }

  lemma {:induction false} AscendingMembers(s: set<nat>, n: nat, i: nat)
    ensures i in Ascending(s, n) <==> i in s && i < n
  {
    if n > 0 {
      AscendingMembers(s, n - 1, i);
    }
  }

  lemma {:induction false} ResidualInMembers(store: map<string, Bytes>, files: seq<string>, fragments: seq<Bytes>, i: nat)
    ensures i in ResidualIn(store, files, fragments) <==> exists f :: f in files && f in store && IsResidual(fragments, store[f], i)
  {
    if |files| > 0 {
      ResidualInMembers(store, Init(files), fragments, i);
      assert forall f :: f in files <==> f in Init(files) || f == Last(files);
    }
  }

  /** The fragment is nonempty and stands somewhere in the text, byte for byte. */
  ghost predicate StandsIn(fragment: Bytes, text: Bytes) {
    |fragment| > 0 &&
    exists before: Bytes, after: Bytes :: text == before + fragment + after
  }

  lemma StandsInIs(needles: seq<Bytes>, text: Bytes, i: nat)
    requires i < |needles|
    ensures IsResidual(needles, text, i) <==> StandsIn(needles[i], text)
  {
    var needle := needles[i];
    if IsResidual(needles, text, i) {
      var k: nat :| OccursAt(needle, text, k);
      assert text == text[..k] + needle + text[k + |needle|..];
    }
    if StandsIn(needle, text) {
      var before: Bytes, after: Bytes :| text == before + needle + after;
      assert text[|before|..|before| + |needle|] == needle;
      assert OccursAt(needle, text, |before|);
    }
  }

  lemma {:induction false} AscendingRises(s: set<nat>, n: nat)
    ensures forall i: nat, j: nat :: i < j < |Ascending(s, n)| ==> Ascending(s, n)[i] < Ascending(s, n)[j]
    ensures forall i: nat :: i < |Ascending(s, n)| ==> Ascending(s, n)[i] < n
  {
    if n > 0 {
      AscendingRises(s, n - 1);
    }
  }

  /**
   * A clean report is a proof of absence: it lists an index, once and in ascending order, exactly when that
   * fragment stands in some existing file.
   */
  lemma ReportIsExact(store: map<string, Bytes>, files: seq<string>, fragments: seq<Bytes>, i: nat)
    ensures var residual := Ascending(ResidualIn(store, files, fragments), |fragments|);
            (i in residual <==>
              i < |fragments| && exists f :: f in files && f in store && StandsIn(fragments[i], store[f])) &&
            (forall a: nat, b: nat :: a < b < |residual| ==> residual[a] < residual[b])
  {
    AscendingMembers(ResidualIn(store, files, fragments), |fragments|, i);
    AscendingRises(ResidualIn(store, files, fragments), |fragments|);
    ResidualInMembers(store, files, fragments, i);
    if i < |fragments| {
      forall f | f in store
        ensures IsResidual(fragments, store[f], i) <==> StandsIn(fragments[i], store[f])
      {
        StandsInIs(fragments, store[f], i);
      }
    }
  }

  /** How many of the fragments, by index, stand in a text. */
  ghost function Standing(fragments: seq<Bytes>, text: Bytes): set<nat> {
    set i: nat | i < |fragments| && StandsIn(fragments[i], text)
  }

  lemma StandingIs(fragments: seq<Bytes>, text: Bytes)
    ensures Residual(fragments, text) == Standing(fragments, text)
  {
    forall i: nat | i < |fragments|
      ensures IsResidual(fragments, text, i) <==> StandsIn(fragments[i], text)
    {
      StandsInIs(fragments, text, i);
    }
  }

  /** One file: listed as scanned when it exists, and as a hit with its fragments when any stand in it. */
  lemma OneFileReport(store: map<string, Bytes>, f: string, fragments: seq<Bytes>)
    ensures ExistingFiles(store, [f]) == if f in store then [f] else []
    ensures HitsIn(store, [f], fragments) ==
            if f in store && Standing(fragments, store[f]) != {} then [Hit(f, |Standing(fragments, store[f])|)] else []
  {
    assert Init([f]) == [];
    if f in store {
      StandingIs(fragments, store[f]);
    }
  }

  /** More files: their reports one after the other. */
  lemma {:induction false} FileReportsConcatenate(store: map<string, Bytes>, fs: seq<string>, gs: seq<string>, fragments: seq<Bytes>)
    ensures ExistingFiles(store, fs + gs) == ExistingFiles(store, fs) + ExistingFiles(store, gs)
    ensures HitsIn(store, fs + gs, fragments) == HitsIn(store, fs, fragments) + HitsIn(store, gs, fragments)
  {
    if |gs| == 0 {
      assert fs + gs == fs;
    } else {
      assert Init(fs + gs) == fs + Init(gs);
      FileReportsConcatenate(store, fs, Init(gs), fragments);
    }
  }
}
