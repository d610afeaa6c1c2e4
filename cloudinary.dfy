/** The image host client (`CloudinaryService`): its settings read from the
    process environment and a `.env` file, the multipart/form-data bodies it
    uploads (RFC 7578, with the boundary delimiters of section 5.1.1 of
    RFC 2046) and the hexadecimal rendering of the request signature.

    Bodies are modelled as character sequences; the HTTP exchange, the SHA-1
    digest, UUIDs and the clock are parameters. */
module Cloudinary {
  import opened Common
  import opened Text

  // ---------------------------------------------------------------------
  // Settings

  /** One `.env` line (`loadEnv`): blank lines, comments and lines without
      `=` are skipped; otherwise the line is split at its first `=`, both
      sides are trimmed, and an empty key or value is dropped. */
  function ParseEnvLine(line: string): (r: Option<(string, string)>)
    ensures r.Some? ==> r.value.0 != [] && r.value.1 != []
    ensures r.Some? ==> IsTrimmed(r.value.0) && IsTrimmed(r.value.1) && '=' !in r.value.0
    ensures IsBlank(line) ==> r.None?
  {
    TrimEmptyIffBlank(line);
    ParseTrimmedLine(Trim(line))
  }

  /** The rest of `ParseEnvLine`, once the line is trimmed. */
  function ParseTrimmedLine(trimmed: string): (r: Option<(string, string)>)
    ensures r.Some? ==> r.value.0 != [] && r.value.1 != []
    ensures r.Some? ==> IsTrimmed(r.value.0) && IsTrimmed(r.value.1) && '=' !in r.value.0
    ensures trimmed == [] ==> r.None?
  {
    if trimmed == [] || StartsWith(trimmed, "#") || '=' !in trimmed then None
    else
      var idx := IndexOf(trimmed, '=');
      var key := Trim(trimmed[..idx]);
      var value := Trim(trimmed[idx + 1..]);
      assert '=' !in key by {
        assert forall c :: c in key ==> c in trimmed[..idx];
      }
      if key != [] && value != [] then Some((key, value)) else None
  }

  /** A line written as `key=value` is read back as that entry, whatever
      the value contains. */
  lemma ParseEnvLineRoundTrip(key: string, value: string)
    requires key != [] && IsTrimmed(key) && '=' !in key && key[0] != '#'
    requires value != [] && IsTrimmed(value)
    ensures ParseEnvLine(key + "=" + value) == Some((key, value))
  {
    var line := key + "=" + value;
    assert Trim(line) == line by {
      assert line[0] == key[0] && line[|line| - 1] == value[|value| - 1];
      TrimOfTrimmed(line);
    }
    ParseSplitLine(key, value);
  }

  lemma ParseSplitLine(key: string, value: string)
    requires key != [] && IsTrimmed(key) && '=' !in key && key[0] != '#'
    requires value != [] && IsTrimmed(value)
    ensures ParseTrimmedLine(key + "=" + value) == Some((key, value))
  {
    var line := key + "=" + value;
    SplitAtFirstEquals(key, value);
    TrimOfTrimmed(key);
    TrimOfTrimmed(value);
  }

  /** Where `key=value` splits, when the key has no `=`. */
  lemma SplitAtFirstEquals(key: string, value: string)
    requires key != [] && '=' !in key && key[0] != '#'
    ensures var line := key + "=" + value;
            line != [] && !StartsWith(line, "#") && '=' in line && IndexOf(line, '=') == |key| &&
            line[..|key|] == key && line[|key| + 1..] == value
  {
    var line := key + "=" + value;
    assert line[..|key|] == key;
    IndexOfFirst(line, '=', |key|);
    assert line[|key| + 1..] == value;
    assert line[0] == key[0];
  }

  /** `putIfAbsent` of a parsed line. */
  function PutIfAbsent(values: map<string, string>, entry: Option<(string, string)>): map<string, string> {
    match entry
    case Some((k, v)) => if k in values then values else values[k := v]
    case None => values
  }

  /** The parsed `.env` lines, in file order. */
  function Entries(lines: seq<string>): (r: seq<Option<(string, string)>>)
    ensures |r| == |lines|
  {
    seq(|lines|, j requires 0 <= j < |lines| => ParseEnvLine(lines[j]))
  }

  /** The settings after putting the given entries, one after the other. */
  function Filled(values: map<string, string>, entries: seq<Option<(string, string)>>): map<string, string> {
    if entries == [] then values
    else PutIfAbsent(Filled(values, entries[..|entries| - 1]), entries[|entries| - 1])
  }

  /** The settings after the given `.env` lines. */
  function Loaded(process: map<string, string>, lines: seq<string>): map<string, string> {
    Filled(process, Entries(lines))
  }

  /** `loadEnv`: the process environment, completed by the `.env` lines
      (`None` when the file is missing or cannot be read). */
  method LoadEnv(process: map<string, string>, file: Option<seq<string>>) returns (values: map<string, string>)
    ensures file.None? ==> values == process
    ensures file.Some? ==> values == Loaded(process, file.value)
  {
    values := process;
    if file.None? {
      return;
    }
    var lines := file.value;
    ghost var entries := Entries(lines);
    var i := 0;
    while i < |lines|
      invariant 0 <= i <= |lines|
      invariant values == Filled(process, entries[..i])
    {
      var entry := ParseEnvLine(lines[i]);
      assert entry == entries[i];
      FilledExtend(process, entries, i);
      values := PutIfAbsent(values, entry);
      i := i + 1;
    }
    assert entries[..|lines|] == entries;
  }

  lemma FilledExtend(values: map<string, string>, entries: seq<Option<(string, string)>>, i: nat)
    requires i < |entries|
    ensures Filled(values, entries[..i + 1]) == PutIfAbsent(Filled(values, entries[..i]), entries[i])
  {
    assert entries[..i + 1][..i] == entries[..i];
  }

  /** Whether an entry sets the key `k`. */
  predicate SetsKey(entry: Option<(string, string)>, k: string) {
    entry.Some? && entry.value.0 == k
  }

  /** A variable already set is never overridden: not one of the process
      environment, nor one set by an earlier line. */
  lemma {:induction false} FilledKeeps(values: map<string, string>, entries: seq<Option<(string, string)>>, k: string)
    requires k in values
    ensures k in Filled(values, entries) && Filled(values, entries)[k] == values[k]
    decreases |entries|
  {
    if entries != [] {
      FilledKeeps(values, entries[..|entries| - 1], k);
    }
  }

  /** A key that no entry sets stays absent. */
  lemma {:induction false} FilledAbsent(values: map<string, string>, entries: seq<Option<(string, string)>>, k: string)
    requires k !in values
    requires forall j :: 0 <= j < |entries| ==> !SetsKey(entries[j], k)
    ensures k !in Filled(values, entries)
    decreases |entries|
  {
    if entries != [] {
      var prefix := entries[..|entries| - 1];
      assert forall j :: 0 <= j < |prefix| ==> prefix[j] == entries[j];
      FilledAbsent(values, prefix, k);
    }
  }

  /** The first entry that sets a key decides its value. */
  lemma {:induction false} FilledFirstWins(values: map<string, string>, entries: seq<Option<(string, string)>>,
                                           i: nat, k: string, v: string)
    requires i < |entries| && entries[i] == Some((k, v)) && k !in values
    requires forall j :: 0 <= j < i ==> !SetsKey(entries[j], k)
    ensures k in Filled(values, entries) && Filled(values, entries)[k] == v
    decreases |entries|
  {
    var prefix := entries[..|entries| - 1];
    assert forall j :: 0 <= j < |prefix| ==> prefix[j] == entries[j];
    if i == |entries| - 1 {
      FilledAbsent(values, prefix, k);
    } else {
      FilledFirstWins(values, prefix, i, k, v);
    }
  }

  /** A variable of the process environment is never overridden by the
      `.env` file. */
  lemma LoadedKeepsProcess(process: map<string, string>, lines: seq<string>, k: string)
    requires k in process
    ensures k in Loaded(process, lines) && Loaded(process, lines)[k] == process[k]
  {
    FilledKeeps(process, Entries(lines), k);
  }

  /** Among the `.env` lines, the first one that sets a variable the process
      environment lacks wins over later ones. */
  lemma LoadedFirstLineWins(process: map<string, string>, lines: seq<string>, i: nat, k: string, v: string)
    requires i < |lines| && ParseEnvLine(lines[i]) == Some((k, v)) && k !in process
    requires forall j :: 0 <= j < i ==> !SetsKey(ParseEnvLine(lines[j]), k)
    ensures k in Loaded(process, lines) && Loaded(process, lines)[k] == v
  {
    var entries := Entries(lines);
    assert forall j :: 0 <= j < |lines| ==> entries[j] == ParseEnvLine(lines[j]);
    FilledFirstWins(process, entries, i, k, v);
  }

  /** A variable that neither the process environment nor any line sets
      stays unset. */
  lemma LoadedAbsent(process: map<string, string>, lines: seq<string>, k: string)
    requires k !in process
    requires forall j :: 0 <= j < |lines| ==> !SetsKey(ParseEnvLine(lines[j]), k)
    ensures k !in Loaded(process, lines)
  {
    var entries := Entries(lines);
    assert forall j :: 0 <= j < |lines| ==> entries[j] == ParseEnvLine(lines[j]);
    FilledAbsent(process, entries, k);
  }

  /** The service's settings, read once from the environment. */
  datatype Config = Config(cloudName: Option<string>, apiKey: Option<string>,
                           apiSecret: Option<string>, uploadPreset: Option<string>)

  function Lookup(env: map<string, string>, key: string): Option<string> {
    if key in env then Some(env[key]) else None
  }

  /** The constructor: the four `CLOUDINARY_*` variables. */
  function ConfigFrom(env: map<string, string>): Config {
    Config(Lookup(env, "CLOUDINARY_CLOUD_NAME"), Lookup(env, "CLOUDINARY_API_KEY"),
           Lookup(env, "CLOUDINARY_API_SECRET"), Lookup(env, "CLOUDINARY_UPLOAD_PRESET"))
  }

  /** `notBlank`. */
  predicate NotBlank(value: Option<string>) {
    value.Some? && !IsBlank(value.value)
  }

  /** `isConfigured`: cloud name, API key and secret are all set; the upload
      preset plays no part. */
  predicate IsConfigured(config: Config) {
    NotBlank(config.cloudName) && NotBlank(config.apiKey) && NotBlank(config.apiSecret)
  }

  /** A configuration that does not come from the `.env` file alone: with a
      non-blank process variable for each of the three required keys the
      service is configured, whatever the file says. */
  lemma ProcessEnvironmentConfigures(process: map<string, string>, lines: seq<string>)
    requires forall key :: key in {"CLOUDINARY_CLOUD_NAME", "CLOUDINARY_API_KEY", "CLOUDINARY_API_SECRET"} ==>
               key in process && !IsBlank(process[key])
    ensures IsConfigured(ConfigFrom(Loaded(process, lines)))
  {
    LoadedKeepsProcess(process, lines, "CLOUDINARY_CLOUD_NAME");
    LoadedKeepsProcess(process, lines, "CLOUDINARY_API_KEY");
    LoadedKeepsProcess(process, lines, "CLOUDINARY_API_SECRET");
  }

  // ---------------------------------------------------------------------
  // Multipart bodies

  const CRLF: string := "\r\n"

  /** The delimiter line that opens every part. */
  function Delimiter(boundary: string): string {
    "--" + boundary + CRLF
  }

  /** The Content-Disposition header of a plain field, with the empty line
      that ends the headers. */
  function Disposition(name: string): string {
    "Content-Disposition: form-data; name=\"" + name + "\"" + CRLF + CRLF
  }

  /** What `writePart` appends: a boundary delimiter line, the
      Content-Disposition header, an empty line, the value and a line break. */
  function Part(boundary: string, name: string, value: string): string {
    Delimiter(boundary) + Disposition(name) + value + CRLF
  }

  /** The close delimiter that ends every body. */
  function CloseDelimiter(boundary: string): string {
    "--" + boundary + "--" + CRLF
  }

  /** The header that starts a part, up to the field name. */
  function PartOpening(boundary: string): string {
    Delimiter(boundary) + "Content-Disposition: form-data; name=\""
  }

  /** Reads one part back: the field name up to the closing quote, then the
      value up to the final line break. */
  function DecodePart(boundary: string, text: string): (r: Option<(string, string)>)
  {
    var opening := PartOpening(boundary);
    if !StartsWith(text, opening) then None
    else
      var rest := text[|opening|..];
      if '"' !in rest then None
      else
        var q := IndexOf(rest, '"');
        var name := rest[..q];
        var after := rest[q + 1..];
        var separator := CRLF + CRLF;
        if !StartsWith(after, separator) || |after| < |separator| + |CRLF| then None
        else if after[|after| - |CRLF|..] != CRLF then None
        else Some((name, after[|separator|..|after| - |CRLF|]))
  }

  /** Every part `writePart` emits reads back as its name and value, as long
      as the name has no quote in it. */
  lemma PartRoundTrip(boundary: string, name: string, value: string)
    requires '"' !in name
    ensures DecodePart(boundary, Part(boundary, name, value)) == Some((name, value))
  {
    var opening := PartOpening(boundary);
    var rest := name + "\"" + CRLF + CRLF + value + CRLF;
    PartSplits(boundary, name, value);
    NameEndsAtQuote(name, value);
    var after := CRLF + CRLF + value + CRLF;
    assert after[..4] == CRLF + CRLF;
    assert after[|after| - 2..] == CRLF;
    assert after[4..|after| - 2] == value;
  }

  /** A part is its opening followed by the name and the rest. */
  lemma PartSplits(boundary: string, name: string, value: string)
    ensures var opening := PartOpening(boundary);
            var text := Part(boundary, name, value);
            StartsWith(text, opening) &&
            text[|opening|..] == name + "\"" + CRLF + CRLF + value + CRLF
  {
    var opening := PartOpening(boundary);
    var text := Part(boundary, name, value);
    var rest := name + "\"" + CRLF + CRLF + value + CRLF;
    assert text == opening + rest;
  }

  /** The first quote after the opening is the one that closes the name. */
  lemma NameEndsAtQuote(name: string, value: string)
    requires '"' !in name
    ensures var rest := name + "\"" + CRLF + CRLF + value + CRLF;
            '"' in rest && IndexOf(rest, '"') == |name| && rest[..|name|] == name &&
            rest[|name| + 1..] == CRLF + CRLF + value + CRLF
  {
    var rest := name + "\"" + CRLF + CRLF + value + CRLF;
    assert rest[..|name|] == name;
    IndexOfFirst(rest, '"', |name|);
    assert rest[|name| + 1..] == CRLF + CRLF + value + CRLF;
  }

  /** `ByteArrayOutputStream`: the bytes written so far. */
  class OutputBuffer {
    var written: string

    constructor()
      ensures written == []
    {
      written := [];
    }

    method Write(s: string)
      modifies this
      ensures written == old(written) + s
    {
      written := written + s;
    }

    /** `writePart`. */
    method WritePart(boundary: string, name: string, value: string)
      modifies this
      ensures written == old(written) + Part(boundary, name, value)
    {
      ghost var start := written;
      Write(Delimiter(boundary));
      Write(Disposition(name));
      Write(value);
      Write(CRLF);
      Concat4(start, Delimiter(boundary), Disposition(name), value, CRLF);
    }
  }

  lemma Concat4(x: string, a: string, b: string, c: string, d: string)
    ensures x + a + b + c + d == x + (a + b + c + d)
  {
  }

  lemma Concat5(x: string, a: string, b: string, c: string, d: string, e: string)
    ensures x + a + b + c + d + e == x + (a + b + c + d + e)
  {
  }

  /** The Content-Disposition header of the file part, with its file name. */
  function FileDisposition(filename: string): string {
    "Content-Disposition: form-data; name=\"file\"; filename=\"" + filename + "\"" + CRLF
  }

  /** The Content-Type header of the file part, with the empty line that
      ends the headers. */
  function ContentTypeHeader(contentType: string): string {
    "Content-Type: " + contentType + CRLF + CRLF
  }

  /** The part carrying the uploaded file, with its name and content type. */
  function FilePart(boundary: string, filename: string, contentType: string, content: string): string {
    Delimiter(boundary) + FileDisposition(filename) + ContentTypeHeader(contentType) + content + CRLF
  }

  /** The file part of `buildMultipart`. */
  method WriteFilePartTo(output: OutputBuffer, boundary: string, filename: string, contentType: string, content: string)
    modifies output
    ensures output.written == old(output.written) + FilePart(boundary, filename, contentType, content)
  {
    ghost var start := output.written;
    output.Write(Delimiter(boundary));
    output.Write(FileDisposition(filename));
    output.Write(ContentTypeHeader(contentType));
    output.Write(content);
    output.Write(CRLF);
    Concat5(start, Delimiter(boundary), FileDisposition(filename), ContentTypeHeader(contentType), content, CRLF);
  }

  /** The fields every signed upload carries, in this order. */
  function SignedParts(boundary: string, apiKey: string, timestamp: int, signature: string): string {
    Part(boundary, "api_key", apiKey) + Part(boundary, "timestamp", IntToString(timestamp)) +
    Part(boundary, "signature", signature)
  }

  /** The three signed fields, written into a fresh buffer. */
  method WriteSignedParts(boundary: string, apiKey: string, timestamp: int, signature: string)
    returns (output: OutputBuffer)
    ensures fresh(output) && output.written == SignedParts(boundary, apiKey, timestamp, signature)
  {
    output := new OutputBuffer();
    output.WritePart(boundary, "api_key", apiKey);
    assert output.written == Part(boundary, "api_key", apiKey);
    output.WritePart(boundary, "timestamp", IntToString(timestamp));
    output.WritePart(boundary, "signature", signature);
  }

  /** `buildMultipart`: the three signed fields, the file, the close
      delimiter. */
  method BuildMultipart(boundary: string, apiKey: string, content: string, filename: string,
                        contentType: string, timestamp: int, signature: string)
    returns (body: string)
    ensures body == SignedParts(boundary, apiKey, timestamp, signature) +
                    FilePart(boundary, filename, contentType, content) + CloseDelimiter(boundary)
  {
    var output := WriteSignedParts(boundary, apiKey, timestamp, signature);
    WriteFilePartTo(output, boundary, filename, contentType, content);
    output.Write(CloseDelimiter(boundary));
    body := output.written;
  }

  /** `buildMultipartForRemoteUrl`: the three signed fields, the URL as the
      `file` field, the close delimiter. */
  method BuildMultipartForRemoteUrl(boundary: string, apiKey: string, imageUrl: string,
                                    timestamp: int, signature: string)
    returns (body: string)
    ensures body == SignedParts(boundary, apiKey, timestamp, signature) +
                    Part(boundary, "file", imageUrl) + CloseDelimiter(boundary)
  {
    var output := WriteSignedParts(boundary, apiKey, timestamp, signature);
    output.WritePart(boundary, "file", imageUrl);
    output.Write(CloseDelimiter(boundary));
    body := output.written;
  }

  /** Every body starts with the first boundary delimiter and ends with the
      close delimiter. */
  lemma RemoteUrlBodyFraming(boundary: string, apiKey: string, imageUrl: string, timestamp: int, signature: string)
    ensures var body := SignedParts(boundary, apiKey, timestamp, signature) +
                        Part(boundary, "file", imageUrl) + CloseDelimiter(boundary);
            StartsWith(body, "--" + boundary + CRLF) &&
            |body| >= |CloseDelimiter(boundary)| &&
            body[|body| - |CloseDelimiter(boundary)|..] == CloseDelimiter(boundary)
  {
    var first := "--" + boundary + CRLF;
    var body := SignedParts(boundary, apiKey, timestamp, signature) +
                Part(boundary, "file", imageUrl) + CloseDelimiter(boundary);
    var p := Part(boundary, "api_key", apiKey);
    assert p[..|first|] == first;
    assert body[..|first|] == p[..|first|];
  }

  // ---------------------------------------------------------------------
  // Decimal and hexadecimal rendering

  function DecimalDigit(d: int): (c: char)
    requires 0 <= d < 10
    ensures IsDecimalDigit(c) && c as int - '0' as int == d
  {
    ('0' as int + d) as char
  }

  predicate IsDecimalDigit(c: char) {
    '0' <= c <= '9'
  }

  /** Reads a decimal rendering back, most significant digit first. */
  function DecimalValue(s: string): int
    requires forall i :: 0 <= i < |s| ==> IsDecimalDigit(s[i])
  {
    if s == [] then 0 else 10 * DecimalValue(s[..|s| - 1]) + (s[|s| - 1] as int - '0' as int)
  }

  /** `String.valueOf(long)`. */
  function NatToString(n: nat): (s: string)
    ensures |s| >= 1
    decreases n
  {
    if n < 10 then [DecimalDigit(n)] else NatToString(n / 10) + [DecimalDigit(n % 10)]
  }

  /** The rendering is all decimal digits, with no leading zero, and reads
      back as the number. */
  lemma {:induction false} NatToStringReadsBack(n: nat)
    ensures forall i :: 0 <= i < |NatToString(n)| ==> IsDecimalDigit(NatToString(n)[i])
    ensures DecimalValue(NatToString(n)) == n
    ensures NatToString(n)[0] == '0' ==> n == 0
    decreases n
  {
    if n >= 10 {
      NatToStringReadsBack(n / 10);
      var s := NatToString(n);
      var prefix := NatToString(n / 10);
      assert s == prefix + [DecimalDigit(n % 10)];
      assert s[..|s| - 1] == prefix;
      assert s[0] == prefix[0];
    }
  }

  function IntToString(n: int): string {
    if n < 0 then "-" + NatToString(-n) else NatToString(n)
  }

  /** A byte of the digest, as the unsigned value `%02x` prints. */
  type Byte = b: int | 0 <= b < 256

  /** A lower-case hexadecimal digit. */
  function HexDigit(d: int): (c: char)
    requires 0 <= d < 16
    ensures IsHexDigit(c) && HexValue(c) == d
  {
    if d < 10 then ('0' as int + d) as char else ('a' as int + d - 10) as char
  }

  /** `String.format("%02x", b)`: two lower-case hexadecimal digits. */
  function HexByte(b: Byte): (s: string)
    ensures |s| == 2
  {
    [HexDigit(b / 16), HexDigit(b % 16)]
  }

  /** The digest in hexadecimal, two digits per byte in byte order. */
  function Hex(bytes: seq<Byte>): (s: string)
    ensures |s| == 2 * |bytes|
  {
    if bytes == [] then [] else Hex(bytes[..|bytes| - 1]) + HexByte(bytes[|bytes| - 1])
  }

  /** The hexadecimal loop of `sha1`. */
  method ToHex(bytes: seq<Byte>) returns (hex: string)
    ensures hex == Hex(bytes)
  {
    hex := [];
    for i := 0 to |bytes|
      invariant hex == Hex(bytes[..i])
    {
      assert bytes[..i + 1][..i] == bytes[..i];
      hex := hex + HexByte(bytes[i]);
    }
    assert bytes[..|bytes|] == bytes;
  }

  predicate IsHexDigit(c: char) {
    '0' <= c <= '9' || 'a' <= c <= 'f'
  }

  function HexValue(c: char): (v: int)
    requires IsHexDigit(c)
    ensures 0 <= v < 16
  {
    if '0' <= c <= '9' then c as int - '0' as int else c as int - 'a' as int + 10
  }

  /** Reads a hexadecimal rendering back into bytes. */
  function FromHex(s: string): seq<Byte>
    requires |s| % 2 == 0 && forall i :: 0 <= i < |s| ==> IsHexDigit(s[i])
  {
    if s == [] then []
    else FromHex(s[..|s| - 2]) + [16 * HexValue(s[|s| - 2]) + HexValue(s[|s| - 1])]
  }

  /** The rendering is lower-case hexadecimal. */
  lemma {:induction false} HexDigitsOnly(bytes: seq<Byte>)
    ensures forall i :: 0 <= i < |Hex(bytes)| ==> IsHexDigit(Hex(bytes)[i])
  {
    if bytes != [] {
      var prefix := bytes[..|bytes| - 1];
      HexDigitsOnly(prefix);
      var s := Hex(bytes);
      var last := HexByte(bytes[|bytes| - 1]);
      assert s == Hex(prefix) + last;
      forall i | 0 <= i < |s|
        ensures IsHexDigit(s[i])
      {
        if i < |s| - 2 {
          assert s[i] == Hex(prefix)[i];
        } else {
          assert s[i] == last[i - (|s| - 2)];
        }
      }
    }
  }

  /** The rendering loses nothing: reading it back gives the digest. */
  lemma {:induction false} HexRoundTrip(bytes: seq<Byte>)
    ensures forall i :: 0 <= i < |Hex(bytes)| ==> IsHexDigit(Hex(bytes)[i])
    ensures FromHex(Hex(bytes)) == bytes
  {
    HexDigitsOnly(bytes);
    if bytes != [] {
      var prefix := bytes[..|bytes| - 1];
      var b := bytes[|bytes| - 1];
      HexRoundTrip(prefix);
      var s := Hex(bytes);
      var pair := HexByte(b);
      assert s == Hex(prefix) + pair;
      assert s[..|s| - 2] == Hex(prefix);
      assert s[|s| - 2] == pair[0] && s[|s| - 1] == pair[1];
      assert HexValue(pair[0]) == b / 16;
      assert HexValue(pair[1]) == b % 16;
    }
  }

  // ---------------------------------------------------------------------
  // Uploads

  /** The file of an upload form (`MultipartFile`). */
  datatype UploadedFile = UploadedFile(originalFilename: Option<string>, contentType: Option<string>, content: string)

  /** A request ready to be sent: its boundary and its body. */
  datatype UploadRequest = UploadRequest(boundary: string, body: string)

  const DefaultContentType: string := "application/octet-stream"

  /** The signature: the hexadecimal SHA-1 digest of the timestamp followed
      by the secret.  The digest itself is the parameter `sha1`. */
  function Signature(sha1: string -> seq<Byte>, timestamp: int, apiSecret: string): string {
    Hex(sha1("timestamp=" + IntToString(timestamp) + apiSecret))
  }

  /** The signature is two lower-case hexadecimal digits per byte of the
      digest, and reads back as the digest. */
  lemma SignatureReadsBack(sha1: string -> seq<Byte>, timestamp: int, apiSecret: string)
    ensures var digest := sha1("timestamp=" + IntToString(timestamp) + apiSecret);
            var r := Signature(sha1, timestamp, apiSecret);
            |r| == 2 * |digest| &&
            (forall i :: 0 <= i < |r| ==> IsHexDigit(r[i])) &&
            FromHex(r) == digest
  {
    HexRoundTrip(sha1("timestamp=" + IntToString(timestamp) + apiSecret));
  }

  /** `uploadImage` up to the HTTP call: nothing is built when the service
      is not configured; a blank file name becomes "upload-" plus a UUID and
      a blank content type becomes application/octet-stream. */
  function UploadImageRequest(config: Config, file: UploadedFile, timestamp: int,
                              sha1: string -> seq<Byte>, nameUuid: string, boundaryUuid: string)
    : (r: Option<UploadRequest>)
    ensures r.Some? <==> IsConfigured(config)
    ensures r.Some? ==> r.value.boundary == "----JoinUsBoundary" + boundaryUuid
    ensures r.Some? ==>
              var filename := if NotBlank(file.originalFilename) then file.originalFilename.value else "upload-" + nameUuid;
              var contentType := if NotBlank(file.contentType) then file.contentType.value else DefaultContentType;
              r.value.body == SignedParts(r.value.boundary, config.apiKey.value, timestamp,
                                          Signature(sha1, timestamp, config.apiSecret.value)) +
                              FilePart(r.value.boundary, filename, contentType, file.content) +
                              CloseDelimiter(r.value.boundary)
  {
    if !IsConfigured(config) then None
    else
      var filename := if NotBlank(file.originalFilename) then file.originalFilename.value else "upload-" + nameUuid;
      var contentType := if NotBlank(file.contentType) then file.contentType.value else DefaultContentType;
      var boundary := "----JoinUsBoundary" + boundaryUuid;
      var signature := Signature(sha1, timestamp, config.apiSecret.value);
      Some(UploadRequest(boundary,
        SignedParts(boundary, config.apiKey.value, timestamp, signature) +
        FilePart(boundary, filename, contentType, file.content) + CloseDelimiter(boundary)))
  }

  /** `uploadImageFromUrl` up to the HTTP call: nothing is built when the
      service is not configured or the URL is blank; the URL is sent
      trimmed. */
  function UploadFromUrlRequest(config: Config, imageUrl: Option<string>, timestamp: int,
                                sha1: string -> seq<Byte>, boundaryUuid: string)
    : (r: Option<UploadRequest>)
    ensures r.Some? <==> IsConfigured(config) && NotBlank(imageUrl)
    ensures r.Some? ==>
              r.value.body == SignedParts(r.value.boundary, config.apiKey.value, timestamp,
                                          Signature(sha1, timestamp, config.apiSecret.value)) +
                              Part(r.value.boundary, "file", Trim(imageUrl.value)) + CloseDelimiter(r.value.boundary)
  {
    if !IsConfigured(config) || !NotBlank(imageUrl) then None
    else
      var boundary := "----JoinUsBoundary" + boundaryUuid;
      var signature := Signature(sha1, timestamp, config.apiSecret.value);
      Some(UploadRequest(boundary,
        SignedParts(boundary, config.apiKey.value, timestamp, signature) +
        Part(boundary, "file", Trim(imageUrl.value)) + CloseDelimiter(boundary)))
  }

  /** The three signed fields read back, one part after the other, as the
      API key, the timestamp and the signature. */
  lemma SignedPartsReadBack(boundary: string, apiKey: string, timestamp: int, signature: string)
    ensures var first := Part(boundary, "api_key", apiKey);
            var second := Part(boundary, "timestamp", IntToString(timestamp));
            var signed := SignedParts(boundary, apiKey, timestamp, signature);
            |first| + |second| <= |signed| &&
            DecodePart(boundary, signed[..|first|]) == Some(("api_key", apiKey)) &&
            DecodePart(boundary, signed[|first|..|first| + |second|]) == Some(("timestamp", IntToString(timestamp))) &&
            DecodePart(boundary, signed[|first| + |second|..]) == Some(("signature", signature))
  {
    var first := Part(boundary, "api_key", apiKey);
    var second := Part(boundary, "timestamp", IntToString(timestamp));
    var third := Part(boundary, "signature", signature);
    var signed := SignedParts(boundary, apiKey, timestamp, signature);
    assert signed[..|first|] == first;
    assert signed[|first|..|first| + |second|] == second;
    assert signed[|first| + |second|..] == third;
    QuoteFree("api_key");
    QuoteFree("timestamp");
    QuoteFree("signature");
    PartRoundTrip(boundary, "api_key", apiKey);
    PartRoundTrip(boundary, "timestamp", IntToString(timestamp));
    PartRoundTrip(boundary, "signature", signature);
  }

  /** The field names `writePart` is given have no quote in them. */
  lemma QuoteFree(name: string)
    requires name in {"api_key", "timestamp", "signature", "file"}
    ensures '"' !in name
  {
  }

  /** The body of a remote-image upload is the signed fields, then a part
      that reads back as the trimmed URL under the name `file`, then the
      close delimiter. */
  lemma UploadFromUrlReadsBack(config: Config, imageUrl: Option<string>, timestamp: int,
                               sha1: string -> seq<Byte>, boundaryUuid: string)
    requires IsConfigured(config) && NotBlank(imageUrl)
    ensures var r := UploadFromUrlRequest(config, imageUrl, timestamp, sha1, boundaryUuid);
            r.Some? &&
            var signed := SignedParts(r.value.boundary, config.apiKey.value, timestamp,
                                      Signature(sha1, timestamp, config.apiSecret.value));
            var end := |r.value.body| - |CloseDelimiter(r.value.boundary)|;
            |signed| <= end && r.value.body[..|signed|] == signed &&
            DecodePart(r.value.boundary, r.value.body[|signed|..end]) == Some(("file", Trim(imageUrl.value))) &&
            r.value.body[end..] == CloseDelimiter(r.value.boundary)
  {
    var r := UploadFromUrlRequest(config, imageUrl, timestamp, sha1, boundaryUuid).value;
    var signed := SignedParts(r.boundary, config.apiKey.value, timestamp,
                              Signature(sha1, timestamp, config.apiSecret.value));
    var part := Part(r.boundary, "file", Trim(imageUrl.value));
    assert r.body == signed + part + CloseDelimiter(r.boundary);
    ThreePieces(signed, part, CloseDelimiter(r.boundary));
    QuoteFree("file");
    PartRoundTrip(r.boundary, "file", Trim(imageUrl.value));
  }

  /** Each piece of a three-piece body sits where the pieces before it end. */
  lemma ThreePieces(x: string, y: string, z: string)
    ensures (x + y + z)[..|x|] == x && (x + y + z)[|x|..|x| + |y|] == y && (x + y + z)[|x| + |y|..] == z
  {
  }

  /** The header of the file part up to its file name. */
  function FileHeader(boundary: string): string {
    Delimiter(boundary) + "Content-Disposition: form-data; name=\"file\"; filename=\""
  }

  /** A file upload body: the signed fields, then the file part, whose
      header names the file and whose content is `content` unchanged, then
      the close delimiter. */
  predicate FileUploadBody(body: string, signed: string, boundary: string, filename: string, content: string) {
    var header := FileHeader(boundary);
    var end := |body| - |CloseDelimiter(boundary)|;
    |signed| + |header| <= end - |CRLF| - |content| &&
    body[..|signed|] == signed &&
    body[|signed|..|signed| + |header|] == header &&
    StartsWith(body[|signed| + |header|..], filename + "\"") &&
    body[end - |CRLF| - |content|..end - |CRLF|] == content &&
    body[end..] == CloseDelimiter(boundary)
  }

  /** The body `uploadImage` builds has that shape, under the file's own
      name or, for a blank one, "upload-" and a UUID. */
  lemma UploadImageCarriesFile(config: Config, file: UploadedFile, timestamp: int,
                               sha1: string -> seq<Byte>, nameUuid: string, boundaryUuid: string)
    requires IsConfigured(config)
    ensures var r := UploadImageRequest(config, file, timestamp, sha1, nameUuid, boundaryUuid);
            r.Some? &&
            FileUploadBody(r.value.body,
                           SignedParts(r.value.boundary, config.apiKey.value, timestamp,
                                       Signature(sha1, timestamp, config.apiSecret.value)),
                           r.value.boundary,
                           if NotBlank(file.originalFilename) then file.originalFilename.value else "upload-" + nameUuid,
                           file.content)
  {
    var r := UploadImageRequest(config, file, timestamp, sha1, nameUuid, boundaryUuid).value;
    var signed := SignedParts(r.boundary, config.apiKey.value, timestamp,
                              Signature(sha1, timestamp, config.apiSecret.value));
    var filename := if NotBlank(file.originalFilename) then file.originalFilename.value else "upload-" + nameUuid;
    var contentType := if NotBlank(file.contentType) then file.contentType.value else DefaultContentType;
    FileBodyLayout(signed, r.boundary, filename, contentType, file.content);
  }

  /** Where the pieces of a file upload body sit. */
  lemma FileBodyLayout(signed: string, boundary: string, filename: string, contentType: string, content: string)
    ensures FileUploadBody(signed + FilePart(boundary, filename, contentType, content) + CloseDelimiter(boundary),
                           signed, boundary, filename, content)
  {
    var middle := "\"" + CRLF + ContentTypeHeader(contentType);
    FilePartPieces(boundary, filename, contentType, content);
    PiecesLayout(signed, FileHeader(boundary), filename, middle, content, CRLF, CloseDelimiter(boundary));
  }

  lemma FilePartPieces(boundary: string, filename: string, contentType: string, content: string)
    ensures FilePart(boundary, filename, contentType, content) ==
            FileHeader(boundary) + filename + ("\"" + CRLF + ContentTypeHeader(contentType)) + content + CRLF
  {
  }

  lemma PiecesLayout(signed: string, header: string, filename: string, middle: string, content: string,
                     crlf: string, close: string)
    requires |middle| >= 1 && middle[0] == '"'
    ensures var body := signed + (header + filename + middle + content + crlf) + close;
            var end := |body| - |close|;
            |signed| + |header| <= end - |crlf| - |content| &&
            body[..|signed|] == signed &&
            body[|signed|..|signed| + |header|] == header &&
            StartsWith(body[|signed| + |header|..], filename + "\"") &&
            body[end - |crlf| - |content|..end - |crlf|] == content &&
            body[end..] == close
  {
    var body := signed + (header + filename + middle + content + crlf) + close;
    var end := |body| - |close|;
    assert body[..|signed|] == signed;
    assert body[|signed|..|signed| + |header|] == header;
    assert body[|signed| + |header|..][..|filename| + 1] == filename + "\"";
    assert body[end - |crlf| - |content|..end - |crlf|] == content;
    assert body[end..] == close;
  }

  /** What the upload of a remote image gave: the `secure_url` of the
      response, or a failure (an exception of the HTTP call or a response
      without a usable URL). */
  datatype UploadOutcome = Uploaded(secureUrl: Option<string>) | Failed
}
