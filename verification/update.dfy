/** `synctool.update`: reading the LATEST version file, the version check,
    choosing a local file name for a download, the progress percentage,
    and what decides whether a download succeeded. The network, the file
    being written and the digest algorithms are outside the model: the
    response bodies, the Content-Length header, whether a file exists and
    the hex digests are inputs. */
module Update {
  import opened Results
  import opened Seqs
  import opened Text

  /** `web.read(1024)`: at most this much of the version file is read. */
  const ReadLimit: nat := 1024

  /** Shorter version files are refused before they are parsed. */
  const MinLength: nat := 10

  /** The part of the response `web.read(1024)` returns. */
  function FirstRead(body: string): (r: string)
    ensures |r| == if |body| < ReadLimit then |body| else ReadLimit
    ensures r == body[..|r|]
  {
    if |body| < ReadLimit then body else body[..ReadLimit]
  }

  /** `get_latest_version_and_checksum` once the URL has been opened:
      fails on an empty or too short read (before stripping) and on fewer
      than two fields; otherwise all fields, in order. */
  function ParseLatest(body: string): (r: Option<seq<string>>)
    ensures r.Some? <==> |body| >= MinLength && |Words(FirstRead(body))| >= 2
    ensures r.Some? ==> r.value == Words(FirstRead(body))
    ensures r.Some? ==> forall i :: 0 <= i < |r.value| ==> |r.value[i]| > 0 && NoSpace(r.value[i])
  {
    var data := FirstRead(body);
    WordsOfStrip(data);
    if |data| == 0 || |data| < MinLength then None
    else
      var arr := Words(Strip(data));
      if |arr| < 2 then None else Some(arr)
  }

  /** A version file of two or more fields on one line, 10 to 1024
      characters long, parses into exactly those fields. */
  lemma ParseLatestOfLine(fields: seq<string>)
    requires |fields| >= 2
    requires forall i :: 0 <= i < |fields| ==> |fields[i]| > 0 && NoSpace(fields[i])
    requires MinLength <= |Line(fields)| <= ReadLimit
    ensures ParseLatest(Line(fields)) == Some(fields)
  {
    WordsOfLine(fields);
    assert FirstRead(Line(fields)) == Line(fields);
  }

  /** Nothing after the first 1024 characters is looked at. */
  lemma ParseLatestReadsOnce(body: string, more: string)
    requires |body| >= ReadLimit
    ensures ParseLatest(body + more) == ParseLatest(body)
  {
    assert FirstRead(body + more) == FirstRead(body);
  }

  /** `get_latest_version`: the first field, if the file parsed. */
  function LatestVersion(body: string): (r: Option<string>)
    ensures r.Some? <==> ParseLatest(body).Some?
    ensures r.Some? ==> r.value == Words(FirstRead(body))[0] && |r.value| > 0 && NoSpace(r.value)
  {
    match ParseLatest(body)
    case None => None
    case Some(arr) => Some(arr[0])
  }

  /** `check`: is a version other than the installed one published? A file
      that cannot be read or parsed counts as "no". */
  function Check(body: string, installed: string): (r: bool)
    ensures r ==> ParseLatest(body).Some?
    ensures ParseLatest(body).Some? ==> (r <==> Words(FirstRead(body))[0] != installed)
  {
    match LatestVersion(body)
    case None => false
    case Some(latest) => latest != installed
  }

  /** Against a well-formed version file the check reports a newer version
      exactly when the file names a version other than the installed one. */
  lemma CheckOfLine(fields: seq<string>, installed: string)
    requires |fields| >= 2
    requires forall i :: 0 <= i < |fields| ==> |fields[i]| > 0 && NoSpace(fields[i])
    requires MinLength <= |Line(fields)| <= ReadLimit
    ensures Check(Line(fields), installed) <==> fields[0] != installed
    ensures LatestVersion(Line(fields)) == Some(fields[0])
  {
    ParseLatestOfLine(fields);
  }

  // ---------------------------------------------------------------------
  // Local file name

  /** `'synctool-%s.tar.gz' % version`. */
  function PlainName(version: string): string {
    "synctool-" + version + ".tar.gz"
  }

  /** `'synctool-%s(%d).tar.gz' % (version, n)`. */
  function NumberedName(version: string, n: nat): string {
    "synctool-" + version + "(" + Dec(n) + ").tar.gz"
  }

  /** The candidate names are pairwise different, so the first free one is
      a genuinely new file. */
  lemma LocalNamesDistinct(version: string, a: nat, b: nat)
    ensures PlainName(version) != NumberedName(version, a)
    ensures NumberedName(version, a) == NumberedName(version, b) ==> a == b
  {
    var k := 9 + |version|;
    assert PlainName(version)[k] == '.';
    assert NumberedName(version, a)[k] == '(';
    if NumberedName(version, a) == NumberedName(version, b) {
      var na := NumberedName(version, a);
      assert |Dec(a)| == |Dec(b)|;
      assert Dec(a) == na[k + 1..k + 1 + |Dec(a)|];
      assert Dec(b) == NumberedName(version, b)[k + 1..k + 1 + |Dec(b)|];
      DecInjective(a, b);
    }
  }

  /** Some candidate name is free; otherwise the search does not end. */
  ghost predicate SomeNameFree(version: string, isFile: string -> bool) {
    !isFile(PlainName(version)) || exists n: nat :: n >= 2 && !isFile(NumberedName(version, n))
  }

  /** `make_local_filename_for_version`: the plain name if no such file
      exists, else the numbered name with the smallest free n >= 2. */
  method MakeLocalFilename(version: string, isFile: string -> bool) returns (name: string)
    requires SomeNameFree(version, isFile)
    ensures !isFile(name)
    ensures !isFile(PlainName(version)) ==> name == PlainName(version)
    ensures isFile(PlainName(version)) ==>
      exists n: nat :: n >= 2 && name == NumberedName(version, n) &&
        forall k: nat :: 2 <= k < n ==> isFile(NumberedName(version, k))
  {
    name := PlainName(version);
    if !isFile(name) {
      return;
    }
    ghost var bound: nat :| bound >= 2 && !isFile(NumberedName(version, bound));
    var n: nat := 2;
    name := NumberedName(version, n);
    while isFile(name)
      invariant 2 <= n <= bound
      invariant name == NumberedName(version, n)
      invariant forall k: nat :: 2 <= k < n ==> isFile(NumberedName(version, k))
      decreases bound - n
    {
      n := n + 1;
      name := NumberedName(version, n);
    }
  }

  // ---------------------------------------------------------------------
  // Progress

  /** Python 2 `/` on integers: the quotient rounded towards minus
      infinity. */
  function FloorDiv(a: int, b: int): (q: int)
    requires b != 0
    ensures b > 0 ==> q * b <= a < q * b + b
    ensures b < 0 ==> q * b >= a > q * b + b
  {
    if b > 0 then a / b else (-a) / (-b)
  }

  /** `percent` in `print_progress`: `100 * current / total` with Python
      2 floor division, at most 100. A total of 0 raises
      ZeroDivisionError (None). For a non-zero total the value is pinned:
      100 exactly when the count has reached the total (for a negative
      total, when it is at or below it), and otherwise the floor of
      `100 * current / total`. */
  function Percent(total: int, current: int): (r: Option<int>)
    ensures r.None? <==> total == 0
    ensures r.Some? ==> r.value <= 100
    ensures total > 0 && current >= 0 ==> r.Some? && 0 <= r.value
    ensures total > 0 && r.Some? ==> (r.value == 100 <==> current >= total)
    ensures total > 0 && r.Some? && r.value < 100 ==>
      r.value * total <= 100 * current < (r.value + 1) * total
    ensures total < 0 && r.Some? ==> (r.value == 100 <==> current <= total)
    ensures total < 0 && r.Some? && r.value < 100 ==>
      r.value * total >= 100 * current > (r.value + 1) * total
  {
    if total == 0 then None
    else
      var p := FloorDiv(100 * current, total);
      FloorReachesHundred(total, current, p);
      Some(if p > 100 then 100 else p)
  }

  lemma MulMono(a: int, b: int, t: int)
    requires a <= b && t >= 0
    ensures a * t <= b * t
  {
  }

  lemma MulMonoNeg(a: int, b: int, t: int)
    requires a <= b && t <= 0
    ensures a * t >= b * t
  {
    MulMono(a, b, -t);
  }

  /** The floor of `100 * current / total` reaches 100 exactly when the
      count reaches the total; a non-negative count gives a non-negative
      floor for a positive total. */
  lemma FloorReachesHundred(total: int, current: int, p: int)
    requires total != 0
    requires p == FloorDiv(100 * current, total)
    ensures total > 0 ==> (p >= 100 <==> current >= total)
    ensures total < 0 ==> (p >= 100 <==> current <= total)
    ensures total > 0 && current >= 0 ==> p >= 0
  {
    if total > 0 {
      if p >= 100 {
        MulMono(100, p, total);
      } else {
        MulMono(p + 1, 100, total);
      }
      if p < 0 {
        MulMono(p + 1, 0, total);
      }
    } else {
      if p >= 100 {
        MulMonoNeg(100, p, total);
      } else {
        MulMonoNeg(p + 1, 100, total);
      }
    }
  }

  /** The progress shown never goes backwards while bytes arrive. */
  lemma PercentMonotone(total: int, a: int, b: int)
    requires total > 0 && a <= b
    ensures Percent(total, a).value <= Percent(total, b).value
  {
    var pa := Percent(total, a).value;
    var pb := Percent(total, b).value;
    if pb < 100 && pa > pb {
      MulMono(pb + 1, pa, total);
    }
  }

  /** For a positive total the percentage is pinned by the floor bounds:
      any `q` in 0..99 with `q * total <= 100 * current < (q + 1) * total`
      is the value shown. */
  lemma PercentExact(total: int, current: int, q: int)
    requires total > 0 && 0 <= q < 100
    requires q * total <= 100 * current < (q + 1) * total
    ensures Percent(total, current) == Some(q)
  {
    var p := Percent(total, current).value;
    MulMono(q + 1, 100, total);
    if p > q {
      MulMono(q + 1, p, total);
    } else if p < q {
      MulMono(p + 1, q, total);
    }
  }

  // ---------------------------------------------------------------------
  // Download

  /** Hex digests of the downloaded data (`hashlib.md5`, `hashlib.sha512`). */
  datatype Digests = Digests(md5: string -> string, sha512: string -> string)

  /** The Content-Length header as `int(web.info().getheaders(...)[0])`
      sees it: absent, present but not an integer, or a length. */
  datatype LengthHeader = NoHeader | NotANumber | Length(n: int)

  /** How `download` ends once the version file has been fetched:
      - `NoVersionFile`: the version file could not be read or parsed
      - `HeaderCrash`: no Content-Length header; indexing the empty header
        list raises IndexError, which the `except (ValueError, KeyError)`
        clause does not catch
      - `BadContentLength`: a Content-Length that is not an integer
      - `ProgressCrash`: Content-Length 0, `print_progress` divides by it
      - `Incomplete`: fewer bytes arrived than Content-Length announced
      - `ChecksumMismatch`: the digest differs from the version file's
      - `Downloaded`: success. */
  datatype Verdict =
    | NoVersionFile
    | HeaderCrash
    | BadContentLength
    | ProgressCrash
    | Incomplete
    | ChecksumMismatch
    | Downloaded

  /** Total length of the chunks. */
  function Sum(chunks: seq<string>): nat {
    if |chunks| == 0 then 0 else |chunks[0]| + Sum(chunks[1..])
  }

  /** The chunks `web.read(4096)` returns before the first empty read,
      which ends the loop. */
  function Received(chunks: seq<string>): (r: seq<string>)
    ensures |r| <= |chunks| && r == chunks[..|r|]
    ensures forall i :: 0 <= i < |r| ==> |r[i]| > 0
    ensures |r| == |chunks| || chunks[|r|] == ""
  {
    if |chunks| == 0 || chunks[0] == "" then [] else [chunks[0]] + Received(chunks[1..])
  }

  /** The checksum the version file calls for: SHA-512 against the third
      field when there is one (MD5 is then ignored), else MD5 against the
      second. */
  predicate ChecksumMatches(fields: seq<string>, data: string, dg: Digests)
    requires |fields| >= 2
  {
    if |fields| > 2 then dg.sha512(data) == fields[2] else dg.md5(data) == fields[1]
  }

  /** The outcome of `download`, computed from its inputs in the order the
      code checks them. */
  function DownloadVerdict(body: string, header: LengthHeader, chunks: seq<string>,
                           dg: Digests): (r: Verdict)
    ensures r == NoVersionFile <==> ParseLatest(body).None?
    ensures r == HeaderCrash <==> ParseLatest(body).Some? && header == NoHeader
    ensures r == BadContentLength <==> ParseLatest(body).Some? && header == NotANumber
    ensures r == ProgressCrash <==> ParseLatest(body).Some? && header == Length(0)
    ensures r == Incomplete <==>
      ParseLatest(body).Some? && header.Length? && header.n != 0 &&
      |Flatten(Received(chunks))| < header.n
    ensures r == ChecksumMismatch <==>
      ParseLatest(body).Some? && header.Length? && header.n != 0 &&
      |Flatten(Received(chunks))| >= header.n &&
      !ChecksumMatches(ParseLatest(body).value, Flatten(Received(chunks)), dg)
    ensures r == Downloaded <==>
      ParseLatest(body).Some? && header.Length? && header.n != 0 &&
      |Flatten(Received(chunks))| >= header.n &&
      ChecksumMatches(ParseLatest(body).value, Flatten(Received(chunks)), dg)
  {
    SumIsLength(Received(chunks));
    match ParseLatest(body)
    case None => NoVersionFile
    case Some(fields) =>
      match header
      case NoHeader => HeaderCrash
      case NotANumber => BadContentLength
      case Length(total) =>
        if total == 0 then ProgressCrash
        else
          var data := Flatten(Received(chunks));
          if Sum(Received(chunks)) < total then Incomplete
          else if !ChecksumMatches(fields, data, dg) then ChecksumMismatch
          else Downloaded
  }

  lemma {:induction false} SumIsLength(chunks: seq<string>)
    ensures Sum(chunks) == |Flatten(chunks)|
  {
    if |chunks| > 0 {
      SumIsLength(chunks[1..]);
    }
  }

  /** The size check comes first: a short download fails whatever the
      digests say. */
  lemma ShortDownloadIgnoresDigests(body: string, total: int, chunks: seq<string>,
                                    dg1: Digests, dg2: Digests)
    requires ParseLatest(body).Some? && total != 0
    requires |Flatten(Received(chunks))| < total
    ensures DownloadVerdict(body, Length(total), chunks, dg1) == Incomplete
    ensures DownloadVerdict(body, Length(total), chunks, dg2) == Incomplete
  {
    SumIsLength(Received(chunks));
  }

  /** With a third field only the SHA-512 digest matters; the MD5 digest
      is computed over nothing and never compared. */
  lemma Sha512OverridesMd5(body: string, header: LengthHeader, chunks: seq<string>,
                           dg: Digests, md5: string -> string)
    requires ParseLatest(body).Some? && |ParseLatest(body).value| > 2
    ensures DownloadVerdict(body, header, chunks, dg) ==
            DownloadVerdict(body, header, chunks, dg.(md5 := md5))
  {
    var fields := ParseLatest(body).value;
    var data := Flatten(Received(chunks));
    assert ChecksumMatches(fields, data, dg) == ChecksumMatches(fields, data, dg.(md5 := md5));
  }

  /** The receive loop of `download`: reads until an empty chunk, counting
      the bytes and showing the progress after each chunk. */
  method Receive(chunks: seq<string>, total: int) returns (count: nat, data: string, shown: seq<int>)
    requires total != 0
    ensures data == Flatten(Received(chunks)) && count == |data|
    ensures |shown| == |Received(chunks)| + 1
    ensures forall i :: 0 <= i < |shown| ==>
      Percent(total, |Flatten(Received(chunks)[..i])|) == Some(shown[i])
  {
    var got := Received(chunks);
    count := 0;
    data := [];
    shown := [Percent(total, 0).value];
    var i := 0;
    while i < |chunks| && chunks[i] != ""
      invariant 0 <= i <= |got|
      invariant got[..i] == chunks[..i]
      invariant data == Flatten(got[..i]) && count == |data|
      invariant |shown| == i + 1
      invariant forall j :: 0 <= j < |shown| ==> Percent(total, |Flatten(got[..j])|) == Some(shown[j])
    {
      FlattenSnoc(got[..i], chunks[i]);
      assert got[..i + 1] == got[..i] + [chunks[i]];
      data := data + chunks[i];
      count := count + |chunks[i]|;
      i := i + 1;
      shown := shown + [Percent(total, count).value];
    }
    assert got[..i] == got;
  }

  lemma {:induction false} FlattenSnoc(ws: seq<string>, w: string)
    ensures Flatten(ws + [w]) == Flatten(ws) + w
  {
    if |ws| > 0 {
      assert (ws + [w])[1..] == ws[1..] + [w];
      FlattenSnoc(ws[1..], w);
    }
  }

  /** `download` with its inputs made explicit: the version file, whether
      local files exist, the Content-Length header, the chunks read and
      the digests. Returns the outcome, the local file name chosen and
      the percentages shown. */
  method Download(body: string, isFile: string -> bool, header: LengthHeader,
                  chunks: seq<string>, dg: Digests)
    returns (verdict: Verdict, name: string, shown: seq<int>)
    requires ParseLatest(body).Some? ==> SomeNameFree(ParseLatest(body).value[0], isFile)
    ensures verdict == DownloadVerdict(body, header, chunks, dg)
    ensures verdict != NoVersionFile ==> !isFile(name)
    ensures verdict == Downloaded && header.n > 0 ==> |shown| > 0 && shown[|shown| - 1] == 100
  {
    shown := [];
    name := "";
    var arr := ParseLatest(body);
    if arr.None? {
      return NoVersionFile, name, shown;
    }
    name := MakeLocalFilename(arr.value[0], isFile);
    if header.NoHeader? {
      return HeaderCrash, name, shown;
    }
    if header.NotANumber? {
      return BadContentLength, name, shown;
    }
    var total := header.n;
    if total == 0 {
      return ProgressCrash, name, shown;
    }
    var count, data;
    count, data, shown := Receive(chunks, total);
    SumIsLength(Received(chunks));
    if count < total {
      return Incomplete, name, shown;
    }
    // force 100% in the progress counter
    var last := Percent(total, count + 100).value;
    assert total > 0 ==> last == 100;
    shown := shown + [last];
    if !ChecksumMatches(arr.value, data, dg) {
      return ChecksumMismatch, name, shown;
    }
    verdict := Downloaded;
  }
}
