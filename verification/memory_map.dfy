/**
 * `DYNINSTgetMemoryMap`: reads `/proc/self/maps` into a fixed buffer, counts
 * its lines and parses each into a (start, size) record, all or nothing.
 *
 * The operating system is a parameter: whether `open` succeeds, the replies
 * the successive `read` calls give, and whether `malloc` succeeds.
 */
module MemoryMap {
  import opened Common
  import opened MapsText
  import HeapPolicy

  /** Size of the static buffer `procAsciiMap`: `1<<15` characters. */
  const MapCapacity: nat := 0x8000

  /** What one `read` call returns: some bytes (none at end of file), or an error. */
  datatype ReadReply = Bytes(data: seq<char>) | ReadError

  /** Where the read loop ends. */
  datatype FillOutcome = Filled(text: seq<char>) | ReadFailed | Overflow

  function Min(a: nat, b: nat): nat
  {
    if a <= b then a else b
  }

  /**
   * The read loop, from the text `acc` read so far.  A read asks for the space
   * left in the buffer and returns at most that much, so a longer reply is cut
   * to it; running out of replies is end of file.  A zero-length read ends the
   * loop; a failing read returns -1 from the call; so does a buffer that has
   * filled up, which leaves no room for the terminator.
   */
  function Fill(replies: seq<ReadReply>, acc: seq<char>): (r: FillOutcome)
    requires |acc| < MapCapacity
    ensures r.Filled? ==> |r.text| < MapCapacity && acc <= r.text
    decreases |replies|
  {
    if replies == [] then Filled(acc)
    else match replies[0]
      case ReadError => ReadFailed
      case Bytes(d) =>
        if |d| == 0 then Filled(acc)
        else
          var got := acc + d[..Min(|d|, MapCapacity - |acc|)];
          if |got| >= MapCapacity then Overflow else Fill(replies[1..], got)
  }

  // ---------------------------------------------------------------------------
  // Reference definition of the read loop

  /** A reply that ends the loop: an error or end of file. */
  predicate Stops(r: ReadReply)
  {
    r.ReadError? || r.data == []
  }

  /** Index of the first reply that ends the loop, or the number of replies. */
  function StopIndex(rs: seq<ReadReply>): (k: nat)
    ensures k <= |rs|
    ensures forall j :: 0 <= j < k ==> !Stops(rs[j])
    ensures k < |rs| ==> Stops(rs[k])
  {
    if rs == [] || Stops(rs[0]) then 0 else 1 + StopIndex(rs[1..])
  }

  /** Everything the replies deliver, in order. */
  function Concat(rs: seq<ReadReply>): seq<char>
  {
    if rs == [] then [] else (if rs[0].Bytes? then rs[0].data else []) + Concat(rs[1..])
  }

  /** The read loop's result in closed form: the data before the first
      stopping reply overflows the buffer, or else that reply is an error, or
      else the text is exactly that data. */
  function FillReference(rs: seq<ReadReply>, acc: seq<char>): FillOutcome
  {
    var k := StopIndex(rs);
    var got := Concat(rs[..k]);
    if |acc| + |got| >= MapCapacity then Overflow
    else if k < |rs| && rs[k].ReadError? then ReadFailed
    else Filled(acc + got)
  }

  lemma ConcatCons(r: ReadReply, rs: seq<ReadReply>)
    ensures Concat([r] + rs) == (if r.Bytes? then r.data else []) + Concat(rs)
  {
    assert ([r] + rs)[1..] == rs;
  }

  /** The read loop is its closed form: it ends normally only at end of file,
      fails at the first error, and overflows exactly when the data read
      reaches the capacity. */
  lemma {:induction false} FillMatchesReference(rs: seq<ReadReply>, acc: seq<char>)
    requires |acc| < MapCapacity
    ensures Fill(rs, acc) == FillReference(rs, acc)
    decreases |rs|
  {
    if rs == [] {
      assert acc + [] == acc;
    } else if Stops(rs[0]) {
      assert rs[..0] == [];
      assert acc + [] == acc;
    } else {
      var d, tail := rs[0].data, rs[1..];
      var k := StopIndex(rs);
      assert k == 1 + StopIndex(tail);
      assert rs[..k] == [rs[0]] + tail[..k - 1];
      ConcatCons(rs[0], tail[..k - 1]);
      if |acc| + |d| < MapCapacity {
        assert d[..|d|] == d;
        FillMatchesReference(tail, acc + d);
        assert acc + d + Concat(tail[..k - 1]) == acc + Concat(rs[..k]);
        assert k < |rs| ==> rs[k] == tail[k - 1];
      }
    }
  }

  /** However the kernel splits the file into reads, a file that fits is read whole. */
  lemma ReadWholeFile(rs: seq<ReadReply>)
    requires forall j :: 0 <= j < |rs| ==> rs[j].Bytes? && rs[j].data != []
    requires |Concat(rs)| < MapCapacity
    ensures Fill(rs, []) == Filled(Concat(rs))
  {
    FillMatchesReference(rs, []);
    assert rs[..|rs|] == rs;
    assert [] + Concat(rs) == Concat(rs);
  }

  // ---------------------------------------------------------------------------
  // The whole call

  /** The reasons the call returns -1. */
  datatype MapError = OpenFailed | ReadFailure | BufferOverflow | OutOfMemory | ParseFailure

  /** What the operating system does during one call. */
  datatype OsModel = OsModel(openSucceeds: bool, replies: seq<ReadReply>, mallocSucceeds: bool)

  /** What each piece parses to, in order. */
  function ParseEach(pieces: seq<seq<char>>, modulus: nat): (r: seq<Option<MapSegment>>)
    requires modulus > 0
    ensures |r| == |pieces|
  {
    if pieces == [] then [] else [ParseSegment(pieces[0], modulus)] + ParseEach(pieces[1..], modulus)
  }

  lemma {:induction false} ParseEachAt(pieces: seq<seq<char>>, modulus: nat, i: nat)
    requires modulus > 0 && i < |pieces|
    ensures ParseEach(pieces, modulus)[i] == ParseSegment(pieces[i], modulus)
  {
    if i > 0 {
      ParseEachAt(pieces[1..], modulus, i - 1);
      assert pieces[1..][i - 1] == pieces[i];
    }
  }

  /** The records of the parsed pieces, in order; the first piece that did
      not parse fails them all. */
  function Collect(parsed: seq<Option<MapSegment>>): (r: Result<seq<MapSegment>, MapError>)
    ensures r.Success? ==> |r.value| == |parsed|
    ensures r.Failure? ==> r.error == ParseFailure
  {
    if parsed == [] then Success([])
    else match parsed[0]
      case None => Failure(ParseFailure)
      case Some(seg) =>
        var rest := Collect(parsed[1..]);
        if rest.Failure? then rest else Success([seg] + rest.value)
  }

  /** Parses every piece, in order; the first piece that fails fails them all.
      A success has one record per piece. */
  function ParseAll(pieces: seq<seq<char>>, modulus: nat): (r: Result<seq<MapSegment>, MapError>)
    requires modulus > 0
    ensures r.Success? ==> |r.value| == |pieces|
    ensures r.Failure? ==> r.error == ParseFailure
  {
    Collect(ParseEach(pieces, modulus))
  }

  /** Every start and size of a successful parse is an address. */
  lemma ParseAllAddresses(pieces: seq<seq<char>>, modulus: nat)
    requires modulus > 0
    ensures ParseAll(pieces, modulus).Success? ==> Addresses(ParseAll(pieces, modulus).value, modulus)
  {
    ParseEachBounded(pieces, modulus);
    CollectBounded(ParseEach(pieces, modulus), modulus);
  }

  /** Every start and size is below `modulus`. */
  predicate Addresses(segs: seq<MapSegment>, modulus: nat)
  {
    forall i :: 0 <= i < |segs| ==> segs[i].vaddr < modulus && segs[i].size < modulus
  }

  /** Every piece that parses gives a record of addresses. */
  lemma ParseEachBounded(pieces: seq<seq<char>>, modulus: nat)
    requires modulus > 0
    ensures forall i :: 0 <= i < |pieces| && ParseEach(pieces, modulus)[i].Some? ==>
              Addresses([ParseEach(pieces, modulus)[i].value], modulus)
  {
    var parsed := ParseEach(pieces, modulus);
    forall i | 0 <= i < |pieces| && parsed[i].Some? ensures Addresses([parsed[i].value], modulus) {
      ParseEachAt(pieces, modulus, i);
      var seg := parsed[i].value;
      assert seg.vaddr < modulus && seg.size < modulus;
    }
  }

  /** Records of addresses collect into records of addresses. */
  lemma CollectBounded(parsed: seq<Option<MapSegment>>, modulus: nat)
    requires forall i :: 0 <= i < |parsed| && parsed[i].Some? ==> Addresses([parsed[i].value], modulus)
    ensures Collect(parsed).Success? ==> Addresses(Collect(parsed).value, modulus)
  {
    if Collect(parsed).Success? {
      CollectSucceedsAt(parsed);
      var segs := Collect(parsed).value;
      forall i | 0 <= i < |segs| ensures segs[i].vaddr < modulus && segs[i].size < modulus {
        assert Addresses([parsed[i].value], modulus);
        assert [parsed[i].value][0] == segs[i];
      }
    }
  }

  /** The specification of `DYNINSTgetMemoryMap` for one build configuration. */
  function GetMemoryMapSpec(cfg: HeapPolicy.Config, os: OsModel): (r: Result<seq<MapSegment>, MapError>)
    ensures r.Success? ==> os.openSucceeds && os.mallocSucceeds && Fill(os.replies, []).Filled?
    ensures r.Success? ==> Addresses(r.value, HeapPolicy.AddressModulus(cfg))
  {
    if !os.openSucceeds then Failure(OpenFailed)
    else match Fill(os.replies, [])
      case ReadFailed => Failure(ReadFailure)
      case Overflow => Failure(BufferOverflow)
      case Filled(text) =>
        if !os.mallocSucceeds then Failure(OutOfMemory)
        else
          ParseAllAddresses(SplitLines(CString(text)), HeapPolicy.AddressModulus(cfg));
          ParseAll(SplitLines(CString(text)), HeapPolicy.AddressModulus(cfg))
  }

  /** Which failure the call reports: open, then the read loop, then the
      allocation, then the parse; a successful read always leaves room for the
      terminator. */
  lemma SpecFailureOrder(cfg: HeapPolicy.Config, os: OsModel)
    ensures var r := GetMemoryMapSpec(cfg, os);
            && (r == Failure(OpenFailed) <==> !os.openSucceeds)
            && (r == Failure(ReadFailure) <==> os.openSucceeds && Fill(os.replies, []).ReadFailed?)
            && (r == Failure(BufferOverflow) <==> os.openSucceeds && Fill(os.replies, []).Overflow?)
            && (r == Failure(OutOfMemory) <==>
                  os.openSucceeds && Fill(os.replies, []).Filled? && !os.mallocSucceeds)
            && (r.Success? ==> |Fill(os.replies, []).text| < MapCapacity)
  {
  }

  /** On success there is one record per non-empty line of the text read, in
      order, and record `i` is what line `i` parses to; any line that fails to
      parse fails the whole call. */
  lemma {:induction false} RecordsFollowLines(cfg: HeapPolicy.Config, os: OsModel, text: seq<char>)
    requires os.openSucceeds && os.mallocSucceeds && Fill(os.replies, []) == Filled(text)
    ensures var r := GetMemoryMapSpec(cfg, os);
            var pieces := SplitLines(CString(text));
            && (r.Success? ==> |r.value| == |NonEmptyLines(CString(text))|)
            && (r.Success? ==> forall i :: 0 <= i < |pieces| ==>
                  StripNewlines(pieces[i]) == NonEmptyLines(CString(text))[i]
                  && ParseSegment(pieces[i], HeapPolicy.AddressModulus(cfg)) == Some(r.value[i]))
            && (r.Failure? <==>
                  exists i :: 0 <= i < |pieces| && ParseSegment(pieces[i], HeapPolicy.AddressModulus(cfg)).None?)
  {
    var s := CString(text);
    var modulus := HeapPolicy.AddressModulus(cfg);
    SplitLinesAreNonEmptyLines(s);
    var pieces := SplitLines(s);
    forall i | 0 <= i < |pieces| ensures StripNewlines(pieces[i]) == NonEmptyLines(s)[i] {
      StripAllAt(pieces, i);
    }
    ParseAllMeaning(pieces, modulus);
  }

  /** A non-empty line with no `-` in it fails the whole call with a parse
      failure, and no record is returned. */
  lemma MalformedLineFails(cfg: HeapPolicy.Config, os: OsModel, text: seq<char>, i: nat)
    requires os.openSucceeds && os.mallocSucceeds && Fill(os.replies, []) == Filled(text)
    requires i < |NonEmptyLines(CString(text))| && '-' !in NonEmptyLines(CString(text))[i]
    ensures GetMemoryMapSpec(cfg, os) == Failure(ParseFailure)
  {
    var s := CString(text);
    var modulus := HeapPolicy.AddressModulus(cfg);
    SplitLinesAreNonEmptyLines(s);
    var pieces := SplitLines(s);
    StripAllAt(pieces, i);
    var piece := pieces[i];
    var k := SkipNewlines(piece, 0);
    forall j | 0 <= j < |piece| ensures piece[j] != '-' {
      if j >= k {
        assert piece[j] == StripNewlines(piece)[j - k];
      }
    }
    NoDashFails(piece, modulus);
    ParseAllMeaning(pieces, modulus);
  }

  /** A parse succeeds exactly when every piece parses, and then gives, in
      order, what each piece parses to. */
  lemma ParseAllMeaning(pieces: seq<seq<char>>, modulus: nat)
    requires modulus > 0
    ensures var r := ParseAll(pieces, modulus);
            && (r.Success? ==> forall i :: 0 <= i < |pieces| ==> ParseSegment(pieces[i], modulus) == Some(r.value[i]))
            && (r.Failure? <==> exists i :: 0 <= i < |pieces| && ParseSegment(pieces[i], modulus).None?)
  {
    var parsed := ParseEach(pieces, modulus);
    forall i | 0 <= i < |pieces| ensures parsed[i] == ParseSegment(pieces[i], modulus) {
      ParseEachAt(pieces, modulus, i);
    }
    if Collect(parsed).Success? {
      CollectSucceedsAt(parsed);
    } else {
      var i := CollectFailureWitness(parsed);
    }
  }

  lemma {:induction false} StripAllAt(pieces: seq<seq<char>>, i: nat)
    requires i < |pieces|
    ensures StripAll(pieces)[i] == StripNewlines(pieces[i])
  {
    if i > 0 {
      StripAllAt(pieces[1..], i - 1);
    }
  }

  /** One piece that did not parse fails the whole parse. */
  lemma {:induction false} CollectFails(parsed: seq<Option<MapSegment>>, i: nat)
    requires i < |parsed| && parsed[i].None?
    ensures Collect(parsed) == Failure(ParseFailure)
  {
    if i > 0 && parsed[0].Some? {
      assert parsed[1..][i - 1] == parsed[i];
      CollectFails(parsed[1..], i - 1);
    }
  }

  /** A failed parse has a piece that did not parse. */
  lemma {:induction false} CollectFailureWitness(parsed: seq<Option<MapSegment>>) returns (i: nat)
    requires Collect(parsed).Failure?
    ensures i < |parsed| && parsed[i].None?
  {
    if parsed[0].None? {
      i := 0;
    } else {
      var j := CollectFailureWitness(parsed[1..]);
      i := j + 1;
      assert parsed[1..][j] == parsed[i];
    }
  }

  /** Record `i` of a successful parse is what piece `i` parsed to. */
  lemma {:induction false} CollectSucceedsAt(parsed: seq<Option<MapSegment>>)
    requires Collect(parsed).Success?
    ensures forall i :: 0 <= i < |parsed| ==> parsed[i] == Some(Collect(parsed).value[i])
  {
    if parsed != [] {
      CollectSucceedsAt(parsed[1..]);
      var r := Collect(parsed).value;
      assert r == [r[0]] + Collect(parsed[1..]).value;
      forall i | 0 < i < |parsed| ensures parsed[i] == Some(r[i]) {
        assert parsed[1..][i - 1] == parsed[i];
      }
    }
  }

  /** Pieces that all parsed give the records they parsed to. */
  lemma {:induction false} CollectSucceeds(parsed: seq<Option<MapSegment>>, segs: seq<MapSegment>)
    requires |segs| == |parsed| && forall i :: 0 <= i < |parsed| ==> parsed[i] == Some(segs[i])
    ensures Collect(parsed) == Success(segs)
  {
    if parsed != [] {
      CollectSucceeds(parsed[1..], segs[1..]);
      assert segs == [segs[0]] + segs[1..];
    }
  }

  /** One more parsed piece extends the records by its record. */
  lemma {:induction false} CollectSnoc(parsed: seq<Option<MapSegment>>, segs: seq<MapSegment>, seg: MapSegment)
    requires Collect(parsed) == Success(segs)
    ensures Collect(parsed + [Some(seg)]) == Success(segs + [seg])
  {
    if parsed == [] {
      assert parsed + [Some(seg)] == [Some(seg)];
      assert [Some(seg)][1..] == [];
      assert Collect([Some(seg)][1..]) == Success([]);
      assert segs + [seg] == [seg] + [];
    } else {
      assert parsed[0] == Some(segs[0]) && Collect(parsed[1..]) == Success(segs[1..]);
      CollectSnoc(parsed[1..], segs[1..], seg);
      assert (parsed + [Some(seg)])[0] == parsed[0];
      assert (parsed + [Some(seg)])[1..] == parsed[1..] + [Some(seg)];
      assert segs + [seg] == [segs[0]] + (segs[1..] + [seg]);
    }
  }

  /** The parse of the first `i + 1` pieces, from that of the first `i`. */
  lemma CollectStep(parsed: seq<Option<MapSegment>>, i: nat, segs: seq<MapSegment>, seg: MapSegment)
    requires i < |parsed| && Collect(parsed[..i]) == Success(segs) && parsed[i] == Some(seg)
    ensures Collect(parsed[..i + 1]) == Success(segs + [seg])
  {
    CollectSnoc(parsed[..i], segs, seg);
    assert parsed[..i + 1] == parsed[..i] + [parsed[i]];
  }

  function FormatAll(lines: seq<MapsLine>): (r: seq<seq<char>>)
    ensures |r| == |lines|
    ensures forall i :: 0 <= i < |lines| ==> r[i] == FormatLine(lines[i])
  {
    if lines == [] then [] else [FormatLine(lines[0])] + FormatAll(lines[1..])
  }

  /** The records well-formed lines stand for. */
  function Expected(lines: seq<MapsLine>, modulus: nat): (r: seq<MapSegment>)
    requires modulus > 0
    requires forall i :: 0 <= i < |lines| ==> WellFormedLine(lines[i], modulus)
    ensures |r| == |lines|
    ensures forall i :: 0 <= i < |lines| ==>
              (WellFormedLine(lines[i], modulus) &&
               r[i] == MapSegment(HexValue(lines[i].start),
                                  SubAddr(HexValue(lines[i].end), HexValue(lines[i].start), modulus)))
  {
    if lines == [] then []
    else
      assert WellFormedLine(lines[0], modulus);
      [MapSegment(HexValue(lines[0].start), SubAddr(HexValue(lines[0].end), HexValue(lines[0].start), modulus))]
         + Expected(lines[1..], modulus)
  }

  /** A well-formed line is a non-empty line free of newlines and NULs. */
  lemma FormattedLineIsLine(l: MapsLine, modulus: nat)
    requires WellFormedLine(l, modulus)
    ensures FormatLine(l) != [] && '\n' !in FormatLine(l) && '\0' !in FormatLine(l)
  {
    NotInDigits(l.start, '\n');
    NotInDigits(l.end, '\n');
    NotInDigits(l.start, '\0');
    NotInDigits(l.end, '\0');
  }

  lemma JoinLinesNoNul(lines: seq<seq<char>>)
    requires forall i :: 0 <= i < |lines| ==> '\0' !in lines[i]
    ensures '\0' !in JoinLines(lines)
  {
    if lines != [] {
      JoinLinesNoNul(lines[1..]);
    }
  }

  /**
   * Round trip: a maps file of well-formed lines (hex addresses in range,
   * zero-padded or not; tails free of newlines and NULs) that fits the
   * buffer, delivered in any number of non-empty reads, gives exactly one
   * record per line, in order: its start address and its end minus its start.
   */
  lemma RoundTrip(cfg: HeapPolicy.Config, lines: seq<MapsLine>, rs: seq<ReadReply>)
    requires forall i :: 0 <= i < |lines| ==> WellFormedLine(lines[i], HeapPolicy.AddressModulus(cfg))
    requires forall j :: 0 <= j < |rs| ==> rs[j].Bytes? && rs[j].data != []
    requires Concat(rs) == JoinLines(FormatAll(lines)) && |Concat(rs)| < MapCapacity
    ensures GetMemoryMapSpec(cfg, OsModel(true, rs, true))
         == Success(Expected(lines, HeapPolicy.AddressModulus(cfg)))
  {
    var modulus := HeapPolicy.AddressModulus(cfg);
    var formatted := FormatAll(lines);
    var text := JoinLines(formatted);
    ReadWholeFile(rs);
    forall i | 0 <= i < |formatted|
      ensures PlainLine(formatted[i]) && '\0' !in formatted[i]
    {
      FormattedLineIsLine(lines[i], modulus);
    }
    JoinLinesNoNul(formatted);
    assert CString(text) == text;
    SplitJoinLines(formatted);
    var want := Expected(lines, modulus);
    var parsed := ParseEach(formatted, modulus);
    forall i | 0 <= i < |formatted| ensures parsed[i] == Some(want[i]) {
      ParseFormattedLine(0, lines[i], modulus);
      assert Newlines(0) + FormatLine(lines[i]) == FormatLine(lines[i]);
      ParseEachAt(formatted, modulus, i);
    }
    CollectSucceeds(parsed, want);
  }

  // ---------------------------------------------------------------------------
  // The imperative reader

  /**
   * The read loop over the static buffer: each positive read appends exactly
   * the bytes read behind `length`; a zero-length read ends the loop; an
   * error, or a buffer with no room left for the terminator, fails it.
   */
  method ReadMaps(buf: array<char>, replies: seq<ReadReply>) returns (ok: bool, length: nat)
    requires buf.Length == MapCapacity
    modifies buf
    ensures ok <==> Fill(replies, []).Filled?
    ensures ok ==> length < buf.Length && buf[..length] == Fill(replies, []).text
  {
    length := 0;
    var k: nat := 0;
    assert buf[..0] == [];
    while true
      invariant k <= |replies| && length < buf.Length
      invariant Fill(replies[k..], buf[..length]) == Fill(replies, [])
      decreases |replies| - k
    {
      // one read into the space left behind `length`
      if k == |replies| {
        break;
      }
      var reply := replies[k];
      assert replies[k..][1..] == replies[k + 1..];
      k := k + 1;
      if reply.ReadError? {
        return false, 0;
      }
      var n := Min(|reply.data|, buf.Length - length);
      if n == 0 {
        break;
      }
      ghost var before := buf[..length];
      forall i | 0 <= i < n {
        buf[length + i] := reply.data[i];
      }
      assert buf[..length + n] == before + reply.data[..n];
      length := length + n;
      if length >= buf.Length {
        return false, 0;
      }
    }
    ok := true;
  }

  /** A suffix that starts with `x` followed by `rest`. */
  lemma SuffixCons<T>(xs: seq<T>, i: nat, x: T, rest: seq<T>)
    requires i <= |xs| && xs[i..] == [x] + rest
    ensures i < |xs| && xs[i] == x && xs[i + 1..] == rest
  {
    assert xs[i..][0] == x;
    assert xs[i + 1..] == xs[i..][1..];
  }

  /** Moves from `from` past the characters that are newlines (`newline`)
      or that are not (`!newline`), stopping at the end of the string. */
  method SkipWhile(s: seq<char>, from: nat, newline: bool) returns (to: nat)
    requires from <= |s|
    ensures from <= to <= |s|
    ensures forall j :: from <= j < to ==> (s[j] == '\n') == newline
    ensures to < |s| ==> (s[to] == '\n') != newline
  {
    to := from;
    while to < |s| && (s[to] == '\n') == newline
      invariant from <= to <= |s|
      invariant forall j :: from <= j < to ==> (s[j] == '\n') == newline
    {
      to := to + 1;
    }
  }

  /** A token from `p` to `e` is one piece; counting resumes at `next`. */
  lemma TokenCount(s: seq<char>, p: nat, e: nat, next: nat)
    requires p < e <= |s| && s[p] != '\n'
    requires forall j :: p <= j < e ==> s[j] != '\n'
    requires e < |s| ==> s[e] == '\n'
    requires next == if e < |s| then e + 1 else |s|
    ensures |SplitFrom(s, p)| == 1 + |SplitFrom(s, next)|
  {
    PieceStep(s, p, p, e);
    if e == |s| {
      NoPieceLeft(s, |s|);
    }
  }

  /** The piece from `p` to `e` is piece `i`; the walk resumes at `next`
      with the pieces after it. */
  lemma PieceAdvance(s: seq<char>, p: nat, k: nat, e: nat, next: nat, pieces: seq<seq<char>>, i: nat)
    requires p <= k < e <= |s|
    requires forall j :: p <= j < k ==> s[j] == '\n'
    requires forall j :: k <= j < e ==> s[j] != '\n'
    requires e < |s| ==> s[e] == '\n'
    requires next == if e < |s| then e + 1 else |s|
    requires i <= |pieces| && SplitFrom(s, p) == pieces[i..]
    ensures i < |pieces| && pieces[i] == s[p..e] && SplitFrom(s, next) == pieces[i + 1..]
  {
    PieceStep(s, p, k, e);
    if e == |s| {
      NoPieceLeft(s, |s|);
    }
    SuffixCons(pieces, i, s[p..e], SplitFrom(s, next));
  }

  /** The first pass: counts the `strtok(.., "\n")` tokens of the string. */
  method CountLines(s: seq<char>) returns (num: nat)
    ensures num == |SplitLines(s)|
    ensures num == |NonEmptyLines(s)|
  {
    num := 0;
    var pos: nat := 0;
    while pos < |s|
      invariant pos <= |s|
      invariant num + |SplitFrom(s, pos)| == |SplitLines(s)|
      decreases |s| - pos
    {
      if s[pos] == '\n' {
        // a delimiter strtok skips
        assert |SplitFrom(s, pos)| == |SplitFrom(s, pos + 1)| by {
          SplitFromNewline(s, pos);
        }
        pos := pos + 1;
      } else {
        // a token, ended by the next newline or the end of the string
        var e := SkipWhile(s, pos, false);
        var next: nat := if e < |s| then e + 1 else |s|;
        TokenCount(s, pos, e, next);
        num := num + 1;
        pos := next;
      }
    }
    SplitLinesAreNonEmptyLines(s);
  }

  /** Scanning from `p` after the first `i` of `pieces`, whose parses
      `parsed` collect to `segs`. */
  ghost predicate Parsed(s: seq<char>, pieces: seq<seq<char>>, parsed: seq<Option<MapSegment>>,
                         p: nat, i: nat, segs: seq<MapSegment>)
  {
    && p <= |s| && i <= |pieces| && |parsed| == |pieces|
    && SplitFrom(s, p) == pieces[i..]
    && Collect(parsed[..i]) == Success(segs)
  }

  /** Before the loop: scanning from the start, nothing parsed. */
  lemma ParsedNone(s: seq<char>, modulus: nat)
    requires modulus > 0
    ensures Parsed(s, SplitLines(s), ParseEach(SplitLines(s), modulus), 0, 0, [])
  {
    assert ParseEach(SplitLines(s), modulus)[..0] == [];
  }

  /** After the loop: every piece parsed, so the parse succeeds with `segs`. */
  lemma ParsedAll(s: seq<char>, modulus: nat, p: nat, segs: seq<MapSegment>)
    requires modulus > 0
    requires Parsed(s, SplitLines(s), ParseEach(SplitLines(s), modulus), p, |SplitLines(s)|, segs)
    ensures ParseAll(SplitLines(s), modulus) == Success(segs)
  {
    var pieces := SplitLines(s);
    var parsed := ParseEach(pieces, modulus);
    assert parsed[..|pieces|] == parsed;
    assert Collect(parsed) == Success(segs);
  }

  /**
   * Takes piece `i` from `p` and parses it: either the whole parse fails
   * there, or the first `i + 1` pieces parsed and scanning goes on at `next`.
   */
  method ParseNext(s: seq<char>, modulus: nat, p: nat, i: nat, ghost pieces: seq<seq<char>>,
                   ghost parsed: seq<Option<MapSegment>>, ghost segs: seq<MapSegment>)
    returns (r: Option<MapSegment>, next: nat)
    requires modulus > 0 && pieces == SplitLines(s) && parsed == ParseEach(pieces, modulus)
    requires Parsed(s, pieces, parsed, p, i, segs) && i < |pieces|
    ensures r.None? ==> ParseAll(pieces, modulus).Failure?
    ensures r.Some? ==> Parsed(s, pieces, parsed, next, i + 1, segs + [r.value])
  {
    var e;
    e, next := NextPiece(s, p, pieces, i);
    r := ParseSegment(s[p..e], modulus);
    ParseEachAt(pieces, modulus, i);
    if r.None? {
      CollectFails(parsed, i);
    } else {
      CollectStep(parsed, i, segs, r.value);
    }
  }

  /**
   * One `strtok` step from `p`: the piece runs over the newlines skipped and
   * the token, up to the NUL that replaced its newline; the next scan starts
   * after that NUL (`p + strlen(p) + 1`), or at the end of the text.
   */
  method NextPiece(s: seq<char>, p: nat, ghost pieces: seq<seq<char>>, ghost i: nat) returns (e: nat, next: nat)
    requires p <= |s| && i < |pieces| && SplitFrom(s, p) == pieces[i..]
    ensures p <= e <= |s| && next <= |s|
    ensures pieces[i] == s[p..e] && SplitFrom(s, next) == pieces[i + 1..]
  {
    var k := SkipWhile(s, p, true);
    e := SkipWhile(s, k, false);
    if k == |s| {
      // no token is left, yet a piece is: cannot happen
      NoPieceLeft(s, p);
      assert false;
    }
    next := if e < |s| then e + 1 else |s|;
    PieceAdvance(s, p, k, e, next, pieces, i);
  }

  /**
   * The loop of the second pass: walks the pieces from one terminator to the
   * next and parses piece `i` into `ms[i]`; stops at the first piece that
   * fails.  On success every piece parsed, in order, into `ms`.
   */
  method ParseLoop(s: seq<char>, ms: array<MapSegment>, modulus: nat) returns (ok: bool, ghost p: nat, ghost segs: seq<MapSegment>)
    requires modulus > 0 && ms.Length == |SplitLines(s)|
    modifies ms
    ensures !ok ==> ParseAll(SplitLines(s), modulus).Failure?
    ensures ok ==> Parsed(s, SplitLines(s), ParseEach(SplitLines(s), modulus), p, ms.Length, segs) && ms[..] == segs
  {
    ghost var pieces := SplitLines(s);
    ghost var parsed := ParseEach(pieces, modulus);
    segs := [];
    var q: nat := 0;
    ParsedNone(s, modulus);
    for i := 0 to ms.Length
      invariant Parsed(s, pieces, parsed, q, i, segs)
      invariant ms[..i] == segs
    {
      var r, next := ParseNext(s, modulus, q, i, pieces, parsed, segs);
      if r.None? {
        return false, q, segs;
      }
      ms[i] := r.value;
      assert ms[..i + 1] == ms[..i] + [r.value];
      segs, q := segs + [r.value], next;
    }
    assert ms[..] == ms[..ms.Length];
    ok, p := true, q;
  }

  /** The second pass: succeeds exactly when every piece parses, and then
      `ms` holds the records in order. */
  method ParsePieces(s: seq<char>, ms: array<MapSegment>, modulus: nat) returns (ok: bool)
    requires modulus > 0 && ms.Length == |SplitLines(s)|
    modifies ms
    ensures ok <==> ParseAll(SplitLines(s), modulus).Success?
    ensures ok ==> ParseAll(SplitLines(s), modulus) == Success(ms[..])
  {
    ghost var p, segs;
    ok, p, segs := ParseLoop(s, ms, modulus);
    if ok {
      ParsedAll(s, modulus, p, segs);
    }
  }

  /**
   * `DYNINSTgetMemoryMap(&num, &map)` with `procAsciiMap` as `buf`.  Returns 0
   * and sets both outputs on success; returns -1 and sets neither on every
   * failure (open, read, overflow, allocation, parse), the partly filled
   * array being dropped.
   */
  method GetMemoryMap(buf: array<char>, cfg: HeapPolicy.Config, os: OsModel)
    returns (ret: int, nump: Option<nat>, mapp: Option<array<MapSegment>>)
    requires buf.Length == MapCapacity
    modifies buf
    ensures ret == 0 || ret == -1
    ensures ret == 0 <==> GetMemoryMapSpec(cfg, os).Success?
    ensures ret == -1 ==> nump.None? && mapp.None?
    ensures ret == 0 ==> nump == Some(|GetMemoryMapSpec(cfg, os).value|) && mapp.Some?
                         && fresh(mapp.value) && mapp.value[..] == GetMemoryMapSpec(cfg, os).value
  {
    nump, mapp := None, None;
    if !os.openSucceeds {
      return -1, nump, mapp;
    }
    var ok, length := ReadMaps(buf, os.replies);
    if !ok {
      return -1, nump, mapp;
    }
    buf[length] := '\0';  // in bounds: the read loop leaves room for it
    var s := CString(buf[..length]);
    var num := CountLines(s);
    if !os.mallocSucceeds {
      return -1, nump, mapp;
    }
    var ms := new MapSegment[num];
    ok := ParsePieces(s, ms, HeapPolicy.AddressModulus(cfg));
    if !ok {
      return -1, nump, mapp;
    }
    nump, mapp := Some(num), Some(ms);
    return 0, nump, mapp;
  }
}
