/** The adapter for the `cliphist` clipboard-history store (src/cliphist.rs):
    parsing of `cliphist list` output into entries, the framing of ids sent to
    `cliphist delete` and `cliphist decode`, and the cache key of an entry.
    The subprocesses themselves are an oracle: `ClipHist` answers from fixed
    tables and logs every framed request it receives. */
module Cliphist {
  import opened Wrappers
  import opened Strings

  /** One entry of the clipboard history. */
  datatype Entry = Text(id: string, title: string) | Image(id: string, contentType: string)

  // ---------------------------------------------------------------------------
  // The listing-line pattern  ^(?P<idx>[0-9]+)\t(?P<value>.*)$

  /** Length of the run of ASCII digits that starts `s`. */
  function DigitRun(s: string): (k: nat)
    ensures k <= |s| && AllDigits(s[..k])
    ensures k < |s| ==> !IsDigit(s[k])
  {
    if |s| == 0 || !IsDigit(s[0]) then 0
    else
      var k := 1 + DigitRun(s[1..]);
      assert s[..k] == [s[0]] + s[1..][..k - 1];
      k
  }

  /** `line` is digits up to `k`, a tab at `k`, and a value without newline
      after it: the shape the listing pattern accepts. */
  predicate Framed(line: string, k: nat)
  {
    1 <= k < |line| && AllDigits(line[..k]) && line[k] == '\t' && '\n' !in line[k + 1..]
  }

  /** Parse one listing line (`parse_entry`). */
  function ParseLine(line: string): Result<Entry>
  {
    var k := DigitRun(line);
    if k == 0 || k == |line| || line[k] != '\t' || '\n' in line[k + 1..] then
      Err(ParseError(line))
    else
      Ok(Classify(line[..k], line[k + 1..]))
  }

  /** Text or image, by the binary pattern on the value. */
  function Classify(id: string, value: string): Entry
  {
    match BinaryExt(value)
    case Some(ext) => Image(id, ext)
    case None => Text(id, value)
  }

  lemma {:induction false} DigitRunExact(s: string, k: nat)
    requires k < |s| && AllDigits(s[..k]) && !IsDigit(s[k])
    ensures DigitRun(s) == k
    decreases k
  {
    if k > 0 {
      assert s[1..][..k - 1] == s[1..k];
      assert AllDigits(s[1..][..k - 1]);
      DigitRunExact(s[1..], k - 1);
    }
  }

  /** A line parses exactly when it has the listing shape; the id is then the
      leading digit run and the value everything after the first tab. */
  lemma ParseLineShape(line: string)
    ensures ParseLine(line).Ok? <==> exists k :: Framed(line, k)
    ensures forall k: nat :: Framed(line, k) ==> ParseLine(line) == Ok(Classify(line[..k], line[k + 1..]))
  {
    forall k: nat | Framed(line, k)
      ensures ParseLine(line) == Ok(Classify(line[..k], line[k + 1..]))
    {
      DigitRunExact(line, k);
    }
    if ParseLine(line).Ok? {
      assert Framed(line, DigitRun(line));
    }
  }

  /** Writing a line as `<id>\t<value>` and parsing it gives the id back and
      classifies the value. */
  lemma ParseLineRoundTrip(id: string, value: string)
    requires |id| >= 1 && AllDigits(id) && '\n' !in value
    ensures ParseLine(id + "\t" + value) == Ok(Classify(id, value))
  {
    var line := id + "\t" + value;
    assert line[..|id|] == id && line[|id| + 1..] == value;
    assert Framed(line, |id|);
    ParseLineShape(line);
  }

  // ---------------------------------------------------------------------------
  // The binary pattern  ^(\[\[\s)?binary.*(?P<ext>jpg|jpeg|png|bmp)

  /** `\s` of the regex engine in Unicode mode: the White_Space property. */
  predicate IsRegexSpace(c: char)
  {
    var n := c as int;
    (0x09 <= n <= 0x0D) || n == 0x20 || n == 0x85 || n == 0xA0 || n == 0x1680
    || (0x2000 <= n <= 0x200A) || n == 0x2028 || n == 0x2029 || n == 0x202F
    || n == 0x205F || n == 0x3000
  }

  /** Where the `.*` part starts: after `[[`, one whitespace and `binary`, or
      after a bare leading `binary`. When the bracket prefix matches but
      `binary` does not follow, the pattern without prefix cannot match either,
      since the value then starts with `[`. */
  function BinaryStart(v: string): (p: Option<nat>)
    ensures p.Some? ==> p.value <= |v|
    ensures p.Some? <==> ("binary" <= v || (|v| >= 3 && v[..2] == "[[" && IsRegexSpace(v[2]) && "binary" <= v[3..]))
    ensures p.Some? && "binary" <= v ==> p == Some(6)
    ensures p.Some? && !("binary" <= v) ==> p == Some(9)
  {
    if |v| >= 9 && v[..2] == "[[" && IsRegexSpace(v[2]) && v[3..9] == "binary" then Some(9)
    else if |v| >= 6 && v[..6] == "binary" then Some(6)
    else None
  }

  /** `.` does not match a newline: the `.*` part ends at the first one. */
  function NewlineFrom(v: string, p: nat): (r: nat)
    requires p <= |v|
    ensures p <= r <= |v| && '\n' !in v[p..r]
    ensures r < |v| ==> v[r] == '\n'
    decreases |v| - p
  {
    if p == |v| || v[p] == '\n' then p
    else
      var r := NewlineFrom(v, p + 1);
      assert v[p..r] == [v[p]] + v[p + 1..r];
      r
  }

  /** The extension alternative that matches at `j`, tried in pattern order. */
  function ExtAt(v: string, j: nat): (r: Option<string>)
    requires j <= |v|
    ensures r.Some? ==> r.value in ["jpg", "jpeg", "png", "bmp"]
    ensures r.Some? ==> r.value <= v[j..]
    ensures r.None? ==> forall e :: e in ["jpg", "jpeg", "png", "bmp"] ==> !(e <= v[j..])
  {
    var t := v[j..];
    if "jpg" <= t then Some("jpg")
    else if "jpeg" <= t then Some("jpeg")
    else if "png" <= t then Some("png")
    else if "bmp" <= t then Some("bmp")
    else None
  }

  /** The rightmost position in [lo, hi) where an extension matches: greedy
      `.*` backtracks from the right. */
  function RightmostExt(v: string, lo: nat, hi: nat): (r: Option<(nat, string)>)
    requires lo <= hi <= |v|
    ensures r.Some? ==> lo <= r.value.0 < hi && ExtAt(v, r.value.0) == Some(r.value.1)
    ensures r.Some? ==> forall k :: r.value.0 < k < hi ==> ExtAt(v, k).None?
    ensures r.None? ==> forall k :: lo <= k < hi ==> ExtAt(v, k).None?
    decreases hi - lo
  {
    if hi == lo then None
    else match ExtAt(v, hi - 1)
      case Some(e) => Some((hi - 1, e))
      case None => RightmostExt(v, lo, hi - 1)
  }

  /** The captured extension, if the value matches the binary pattern. */
  function BinaryExt(v: string): Option<string>
  {
    match BinaryStart(v)
    case None => None
    case Some(p) =>
      match RightmostExt(v, p, NewlineFrom(v, p))
      case None => None
      case Some(m) => Some(m.1)
  }

  /** A value is an image exactly when it starts with `binary` (optionally
      behind `[[` and one whitespace) and an extension follows on the same
      line; the content type is the rightmost such extension. */
  lemma ClassifyImage(id: string, v: string)
    ensures Classify(id, v).Image? <==>
      BinaryStart(v).Some? &&
      exists j :: BinaryStart(v).value <= j < NewlineFrom(v, BinaryStart(v).value) && ExtAt(v, j).Some?
    ensures Classify(id, v).Image? ==>
      var p := BinaryStart(v).value;
      exists j :: p <= j < NewlineFrom(v, p) && ExtAt(v, j) == Some(Classify(id, v).contentType)
        && forall k :: j < k < NewlineFrom(v, p) ==> ExtAt(v, k).None?
    ensures Classify(id, v).Text? ==> Classify(id, v) == Text(id, v)
    ensures Classify(id, v).id == id
  {
  }

  // ---------------------------------------------------------------------------
  // `list`: split, drop empty lines, parse every line

  /** The error every failing `cliphist` invocation reports. */
  const STORE_FAILED := ProcessError("Error executing cliphist")

  /** What `cliphist list` produced: its standard output, or a non-zero exit. */
  datatype Listing = Listed(stdout: string) | ListFailed

  function NonEmpty(lines: seq<string>): (r: seq<string>)
    ensures forall i :: 0 <= i < |r| ==> r[i] != "" && r[i] in lines
    ensures forall l :: l in lines && l != "" ==> l in r
  {
    if |lines| == 0 then []
    else if lines[0] == "" then NonEmpty(lines[1..])
    else [lines[0]] + NonEmpty(lines[1..])
  }

  /** Dropping empty lines keeps the others in order and as often as they
      occur: a single line is kept exactly when it is non-empty, and the
      filter distributes over concatenation. */
  lemma {:induction false} NonEmptyAppend(a: seq<string>, b: seq<string>)
    ensures NonEmpty(a + b) == NonEmpty(a) + NonEmpty(b)
    ensures forall l :: NonEmpty([l]) == if l == "" then [] else [l]
    decreases |a|
  {
    if |a| > 0 {
      assert (a + b)[1..] == a[1..] + b;
      NonEmptyAppend(a[1..], b);
    } else {
      assert a + b == b;
    }
    forall l ensures NonEmpty([l]) == if l == "" then [] else [l] {
      assert [l][1..] == [];
    }
  }

  /** The lines that are parsed: the non-empty pieces between newlines. */
  function Lines(out: string): seq<string>
  {
    NonEmpty(Split(out, '\n'))
  }

  /** Parse every line in order; the first failure is the result. */
  function ParseAll(lines: seq<string>): (r: Result<seq<Entry>>)
    ensures r.Ok? <==> forall i :: 0 <= i < |lines| ==> ParseLine(lines[i]).Ok?
    ensures r.Ok? ==> |r.value| == |lines|
    ensures r.Ok? ==> forall i :: 0 <= i < |lines| ==> r.value[i] == ParseLine(lines[i]).value
    ensures r.Err? ==>
      exists i :: (0 <= i < |lines| && ParseLine(lines[i]).Err? && r.error == ParseLine(lines[i]).error
                   && forall j :: 0 <= j < i ==> ParseLine(lines[j]).Ok?)
  {
    if |lines| == 0 then Ok([])
    else match ParseLine(lines[0])
      case Err(e) => Err(e)
      case Ok(entry) =>
        match ParseAll(lines[1..])
        case Err(e) =>
          Err(e)
        case Ok(rest) => Ok([entry] + rest)
  }

  /** `ClipHist::list`. */
  function List(listing: Listing): Result<seq<Entry>>
  {
    match listing
    case ListFailed => Err(STORE_FAILED)
    case Listed(out) => ParseAll(Lines(out))
  }

  /** The listing output of rows `<id>\t<value>`, each line ended by `\n`. */
  function Render(rows: seq<(string, string)>): string
  {
    if |rows| == 0 then "" else rows[0].0 + "\t" + rows[0].1 + "\n" + Render(rows[1..])
  }

  predicate WellFormedRow(row: (string, string))
  {
    |row.0| >= 1 && AllDigits(row.0) && '\n' !in row.1
  }

  /** Listing a rendered history gives one entry per row, in row order, each
      the classification of that row's value. */
  lemma {:induction false} ListRender(rows: seq<(string, string)>)
    requires forall i :: 0 <= i < |rows| ==> WellFormedRow(rows[i])
    ensures List(Listed(Render(rows))).Ok?
    ensures |List(Listed(Render(rows))).value| == |rows|
    ensures forall i :: 0 <= i < |rows| ==>
      List(Listed(Render(rows))).value[i] == Classify(rows[i].0, rows[i].1)
  {
    LinesOfRender(rows);
    forall i | 0 <= i < |rows| ensures ParseLine(rows[i].0 + "\t" + rows[i].1) == Ok(Classify(rows[i].0, rows[i].1)) {
      ParseLineRoundTrip(rows[i].0, rows[i].1);
    }
  }

  lemma {:induction false} LinesOfRender(rows: seq<(string, string)>)
    requires forall i :: 0 <= i < |rows| ==> WellFormedRow(rows[i])
    ensures |Lines(Render(rows))| == |rows|
    ensures forall i :: 0 <= i < |rows| ==> Lines(Render(rows))[i] == rows[i].0 + "\t" + rows[i].1
  {
    if |rows| > 0 {
      var line := rows[0].0 + "\t" + rows[0].1;
      assert '\n' !in line by {
        assert forall c :: c in line ==> c in rows[0].0 || c == '\t' || c in rows[0].1;
        assert '\n' !in rows[0].0 by {
          assert forall i :: 0 <= i < |rows[0].0| ==> IsDigit(rows[0].0[i]);
        }
      }
      assert Render(rows) == line + ['\n'] + Render(rows[1..]);
      SplitAfterPiece(line, Render(rows[1..]), '\n');
      LinesOfRender(rows[1..]);
      assert line != "";
      var split := Split(Render(rows), '\n');
      assert split == [line] + Split(Render(rows[1..]), '\n');
      assert split[1..] == Split(Render(rows[1..]), '\n');
    }
  }

  // ---------------------------------------------------------------------------
  // Cache key and the framing of requests to the store

  /** `CacheEntry::id`: the bare id for text, `<id>.<content type>` for images. */
  function CacheKey(e: Entry): string
  {
    match e
    case Text(id, _) => id
    case Image(id, ct) => id + "." + ct
  }

  /** Keys of entries with digit ids never collide: a text key is all digits,
      an image key has its `.` right after the id, so the key gives back the
      whole image entry. */
  lemma CacheKeyInjective(a: Entry, b: Entry)
    requires AllDigits(a.id) && AllDigits(b.id)
    requires a.Image? || b.Image?
    requires CacheKey(a) == CacheKey(b)
    ensures a == b
  {
    var key := CacheKey(a);
    // the first non-digit of the key sits right after the id of an image
    assert a.Image? ==> key[|a.id|] == '.' && key[..|a.id|] == a.id;
    assert b.Image? ==> key[|b.id|] == '.' && key[..|b.id|] == b.id;
    assert a.Text? ==> AllDigits(key);
    assert b.Text? ==> AllDigits(key);
    assert a.Image? ==> a.contentType == key[|a.id| + 1..];
    assert b.Image? ==> b.contentType == key[|b.id| + 1..];
  }

  /** What `remove` writes to `cliphist delete`'s standard input. */
  function RemoveInput(id: string): string { id + "\t" }

  /** The argument `value_of` passes to `cliphist decode`. */
  function DecodeArg(id: string): string { id + "\t\n" }

  /** Both framings are the entry's listing line cut after the tab, so the
      store reads back exactly the id it listed. */
  lemma FramingCarriesId(line: string)
    requires ParseLine(line).Ok?
    ensures RemoveInput(ParseLine(line).value.id) <= line
    ensures DecodeArg(ParseLine(line).value.id) == RemoveInput(ParseLine(line).value.id) + "\n"
    ensures ParseLine(RemoveInput(ParseLine(line).value.id)) == Ok(Text(ParseLine(line).value.id, ""))
  {
    var k := DigitRun(line);
    var id := line[..k];
    assert ParseLine(line) == Ok(Classify(id, line[k + 1..]));
    assert Classify(id, line[k + 1..]).id == id;
    assert RemoveInput(id) == line[..k + 1];
    ParseLineRoundTrip(id, "");
    assert id + "\t" + "" == RemoveInput(id);
    assert BinaryExt("") == None;
  }

  // ---------------------------------------------------------------------------
  // The store process, as an oracle

  /** A request as the store receives it. */
  datatype StoreCall = Delete(stdin: string) | Decode(arg: string)

  class ClipHist {
    /** What `cliphist decode` prints for each id; for other ids it exits non-zero. */
    const payloads: map<string, seq<bv8>>
    /** Ids for which `cliphist delete` exits non-zero. */
    const undeletable: set<string>
    /** Every request sent to the store, in order. */
    ghost var log: seq<StoreCall>

    constructor (payloads: map<string, seq<bv8>>, undeletable: set<string>)
      ensures this.payloads == payloads && this.undeletable == undeletable && log == []
    {
      this.payloads := payloads;
      this.undeletable := undeletable;
      log := [];
    }

    /** `remove`: feeds `<id>\t` to `cliphist delete`; a non-zero exit is an error. */
    method Remove(id: string) returns (r: Result<()>)
      modifies this
      ensures log == old(log) + [Delete(RemoveInput(id))]
      ensures r == if id in undeletable then Err(STORE_FAILED) else Ok(())
    {
      log := log + [Delete(RemoveInput(id))];
      if id in undeletable {
        r := Err(STORE_FAILED);
      } else {
        r := Ok(());
      }
    }

    /** `value_of`: runs `cliphist decode <id>\t\n`; a non-zero exit is an error. */
    method ValueOf(id: string) returns (r: Result<seq<bv8>>)
      modifies this
      ensures log == old(log) + [Decode(DecodeArg(id))]
      ensures r == if id in payloads then Ok(payloads[id]) else Err(STORE_FAILED)
    {
      log := log + [Decode(DecodeArg(id))];
      if id in payloads {
        r := Ok(payloads[id]);
      } else {
        r := Err(STORE_FAILED);
      }
    }
  }
}
