/** Snapshot file names: the parser of internal/ledger/snapshot.go and a printer that inverts it.
    Base58 is a pair of parameters. Strings are sequences of Unicode code points. */
module FileName {
  import opened Snapshot
  import opened LedgerSpec

  type Decoder = string -> Option<Hash>
  type Encoder = Hash -> string

  // ---- Library routines the parser is built on

  /** filepath.Ext: the suffix from the last dot of the last path element, or nothing. */
  function Ext(path: string): (e: string)
    ensures |e| <= |path| && path[|path| - |e|..] == e
    ensures IsExtPart(e)
  {
    if path == "" then ""
    else
      var last := path[|path| - 1];
      if last == '/' then ""
      else if last == '.' then "."
      else
        var e := Ext(path[..|path| - 1]);
        if e == "" then "" else e + [last]
  }

  function TrimSuffix(s: string, suffix: string): string {
    if |suffix| <= |s| && s[|s| - |suffix|..] == suffix then s[..|s| - |suffix|] else s
  }

  /** The white space of unicode.IsSpace, as package fmt uses it. */
  predicate IsSpace(c: char) {
    var u := c as int;
    || 0x09 <= u <= 0x0d || u == 0x20 || u == 0x85 || u == 0xa0 || u == 0x1680
    || 0x2000 <= u <= 0x200a || u == 0x2028 || u == 0x2029 || u == 0x202f || u == 0x205f || u == 0x3000
  }

  predicate IsDigit(c: char) {
    '0' <= c <= '9'
  }

  function SkipSpace(s: string): string {
    if s != "" && IsSpace(s[0]) then SkipSpace(s[1..]) else s
  }

  function DigitRun(s: string): (n: nat)
    ensures n <= |s|
  {
    if s != "" && IsDigit(s[0]) then 1 + DigitRun(s[1..]) else 0
  }

  function TokenRun(s: string): (n: nat)
    ensures n <= |s|
  {
    if s != "" && !IsSpace(s[0]) then 1 + TokenRun(s[1..]) else 0
  }

  predicate AllDigits(s: string) {
    forall i :: 0 <= i < |s| ==> IsDigit(s[i])
  }

  function NatOf(digits: string): nat
    requires AllDigits(digits)
  {
    if digits == "" then 0
    else 10 * NatOf(digits[..|digits| - 1]) + (digits[|digits| - 1] as int - '0' as int)
  }

  lemma {:induction false} DigitRunIsDigits(s: string)
    ensures AllDigits(s[..DigitRun(s)])
    decreases |s|
  {
    if s != "" && IsDigit(s[0]) {
      DigitRunIsDigits(s[1..]);
      assert s[..DigitRun(s)] == [s[0]] + s[1..][..DigitRun(s[1..])];
    }
  }

  /** %d into a uint64, and what is left of the input; nothing when there is no digit or no room. */
  function ScanUint(input: string): Option<(uint64, string)> {
    var s := SkipSpace(input);
    var n := DigitRun(s);
    DigitRunIsDigits(s);
    var v := NatOf(s[..n]);
    if n == 0 || v >= TWO_TO_THE_64 then None else Some((v, s[n..]))
  }

  function ScanLiteral(input: string, literal: string): Option<string> {
    if literal <= input then Some(input[|literal|..]) else None
  }

  /** %s: the run of characters up to the next white space; nothing when it is empty. */
  function ScanString(input: string): Option<string> {
    var s := SkipSpace(input);
    var n := TokenRun(s);
    if n == 0 then None else Some(s[..n])
  }

  predicate ContainsAny(s: string, chars: string) {
    exists i :: 0 <= i < |s| && s[i] in chars
  }

  // ---- The parser

  const FULL_PREFIX := "snapshot-"
  const INCREMENTAL_PREFIX := "incremental-snapshot-"

  /** Sscanf(stem, "snapshot-%d-%s"). */
  function ScanFull(stem: string): Option<(uint64, string)> {
    var a := ScanLiteral(stem, FULL_PREFIX);
    if a.None? then None else
    var slot := ScanUint(a.value);
    if slot.None? then None else
    var b := ScanLiteral(slot.value.1, "-");
    if b.None? then None else
    var hash := ScanString(b.value);
    if hash.None? then None else Some((slot.value.0, hash.value))
  }

  /** Sscanf(stem, "incremental-snapshot-%d-%d-%s"). */
  function ScanIncremental(stem: string): Option<(uint64, uint64, string)> {
    var a := ScanLiteral(stem, INCREMENTAL_PREFIX);
    if a.None? then None else
    var base := ScanUint(a.value);
    if base.None? then None else
    var b := ScanLiteral(base.value.1, "-");
    if b.None? then None else
    var slot := ScanUint(b.value);
    if slot.None? then None else
    var c := ScanLiteral(slot.value.1, "-");
    if c.None? then None else
    var hash := ScanString(c.value);
    if hash.None? then None else Some((base.value.0, slot.value.0, hash.value))
  }

  function ParseStem(stem: string, decode: Decoder): Option<FileKey> {
    if ContainsAny(stem, "\\/ \t\n") then None
    else if FULL_PREFIX <= stem then
      var fields := ScanFull(stem);
      if fields.None? then None else
      var hash := decode(fields.value.1);
      if hash.None? then None else Some(FileKey(fields.value.0, 0, hash.value))
    else if INCREMENTAL_PREFIX <= stem then
      var fields := ScanIncremental(stem);
      if fields.None? then None else
      var hash := decode(fields.value.2);
      if hash.None? || fields.value.1 <= fields.value.0 then None
      else Some(FileKey(fields.value.1, fields.value.0, hash.value))
    else None
  }

  /** The name with its last two extensions split off. */
  function SplitName(name: string): (r: (string, string))
    ensures r.0 + r.1 == name
  {
    var outer := Ext(name);
    var rest := TrimSuffix(name, outer);
    var inner := Ext(rest);
    (TrimSuffix(rest, inner), inner + outer)
  }

  function NamedFile(name: string, key: FileKey, ext: string): SnapshotFile {
    SnapshotFile(name, "", key.slot, key.baseSlot, key.hash, ext, None, 0)
  }

  function Parsed(name: string, decode: Decoder): Option<SnapshotFile> {
    var (stem, ext) := SplitName(name);
    var key := ParseStem(stem, decode);
    if key.None? then None else Some(NamedFile(name, key.value, ext))
  }

  method ParseSnapshotFileName(name: string, decode: Decoder) returns (file: Option<SnapshotFile>)
    ensures file == Parsed(name, decode)
    ensures file.Some? ==> WellFormed(file.value)
  {
    var stem, ext := name, "";
    for i := 0 to 2
      invariant i == 0 ==> stem == name && ext == ""
      invariant i == 1 ==> ext == Ext(name) && stem == TrimSuffix(name, ext)
      invariant i == 2 ==> (stem, ext) == SplitName(name)
    {
      var extPart := Ext(stem);
      stem := TrimSuffix(stem, extPart);
      ext := extPart + ext;
    }
    if ContainsAny(stem, "\\/ \t\n") {
      return None;
    }
    if FULL_PREFIX <= stem {
      var fields := ScanFull(stem);
      if fields.None? {
        return None;
      }
      var (slot, hashStr) := fields.value;
      var hash := decode(hashStr);
      if hash.None? {
        return None;
      }
      return Some(SnapshotFile(name, "", slot, 0, hash.value, ext, None, 0));
    }
    if INCREMENTAL_PREFIX <= stem {
      var fields := ScanIncremental(stem);
      if fields.None? {
        return None;
      }
      var (baseSlot, incrementalSlot, hashStr) := fields.value;
      var hash := decode(hashStr);
      if hash.None? {
        return None;
      }
      if incrementalSlot <= baseSlot {
        return None;
      }
      return Some(SnapshotFile(name, "", incrementalSlot, baseSlot, hash.value, ext, None, 0));
    }
    return None;
  }

  // ---- The printer, and what the two promise together

  function Decimal(n: nat): (s: string)
    ensures s != "" && AllDigits(s)
  {
    var digit := ('0' as int + n % 10) as char;
    if n < 10 then [digit] else Decimal(n / 10) + [digit]
  }

  function PrintStem(key: FileKey, encode: Encoder): string {
    if key.baseSlot == 0
    then FULL_PREFIX + (Decimal(key.slot) + ("-" + encode(key.hash)))
    else INCREMENTAL_PREFIX + (Decimal(key.baseSlot) + ("-" + (Decimal(key.slot) + ("-" + encode(key.hash)))))
  }

  function PrintName(key: FileKey, ext: string, encode: Encoder): string {
    PrintStem(key, encode) + ext
  }

  /** Nothing, or a dot followed by neither dots nor slashes. */
  predicate IsExtPart(part: string) {
    part == "" || (part[0] == '.' && forall i :: 1 <= i < |part| ==> part[i] != '.' && part[i] != '/')
  }

  /** The parts of an extension such as ".tar.zst": at most two, the outer one going first. */
  predicate AreExtParts(inner: string, outer: string) {
    IsExtPart(inner) && IsExtPart(outer) && (outer == "" ==> inner == "")
  }

  predicate IsBase58(c: char) {
    ('1' <= c <= '9') || ('A' <= c <= 'Z') || ('a' <= c <= 'z')
  }

  /** What is assumed of base58: it prints non-empty alphanumeric text and reads it back. */
  ghost predicate Inverse(encode: Encoder, decode: Decoder) {
    forall h: Hash :: encode(h) != "" && (forall c :: c in encode(h) ==> IsBase58(c)) && decode(encode(h)) == Some(h)
  }

  lemma {:induction false} DecimalRoundTrip(n: nat)
    ensures NatOf(Decimal(n)) == n
    decreases n
  {
    if n >= 10 {
      DecimalRoundTrip(n / 10);
      assert Decimal(n)[..|Decimal(n)| - 1] == Decimal(n / 10);
    } else {
      assert Decimal(n)[..0] == "";
    }
  }

  lemma {:induction false} DigitRunStops(digits: string, rest: string)
    requires AllDigits(digits) && (rest == "" || !IsDigit(rest[0]))
    ensures DigitRun(digits + rest) == |digits|
    decreases |digits|
  {
    if digits == "" {
      assert digits + rest == rest;
    } else {
      assert (digits + rest)[1..] == digits[1..] + rest;
      DigitRunStops(digits[1..], rest);
    }
  }

  lemma ScanDecimal(n: uint64, rest: string)
    requires rest == "" || !IsDigit(rest[0])
    ensures ScanUint(Decimal(n) + rest) == Some((n, rest))
  {
    var s := Decimal(n) + rest;
    assert IsDigit(s[0]);
    DigitRunStops(Decimal(n), rest);
    assert s[..|Decimal(n)|] == Decimal(n) && s[|Decimal(n)|..] == rest;
    DecimalRoundTrip(n);
  }

  lemma ScanPrefix(literal: string, rest: string)
    ensures ScanLiteral(literal + rest, literal) == Some(rest)
  {
    assert (literal + rest)[..|literal|] == literal;
  }

  lemma {:induction false} TokenRunAll(s: string)
    requires forall c :: c in s ==> !IsSpace(c)
    ensures TokenRun(s) == |s|
    decreases |s|
  {
    if s != "" {
      TokenRunAll(s[1..]);
    }
  }

  lemma ScanToken(s: string)
    requires s != "" && forall c :: c in s ==> IsBase58(c)
    ensures ScanString(s) == Some(s)
  {
    forall c | c in s ensures !IsSpace(c) {
      assert IsBase58(c);
    }
    TokenRunAll(s);
    assert SkipSpace(s) == s && s[..|s|] == s;
  }

  /** A printed stem is made of digits, letters and hyphens. */
  predicate IsPlain(c: char) {
    c == '-' || IsDigit(c) || IsBase58(c)
  }

  lemma PrintedStemIsPlain(key: FileKey, encode: Encoder, decode: Decoder)
    requires Inverse(encode, decode)
    ensures forall c :: c in PrintStem(key, encode) ==> IsPlain(c)
  {
    assert forall c :: c in encode(key.hash) ==> IsBase58(c);
    assert forall c :: c in FULL_PREFIX ==> IsPlain(c);
    assert forall c :: c in INCREMENTAL_PREFIX ==> IsPlain(c);
  }

  lemma PlainIsAllowed(s: string)
    requires forall c :: c in s ==> IsPlain(c)
    ensures !ContainsAny(s, "\\/ \t\n") && '.' !in s
  {
    forall i | 0 <= i < |s| ensures s[i] !in "\\/ \t\n" {
      assert IsPlain(s[i]);
    }
  }

  lemma FullStemScans(slot: uint64, hash: string)
    requires hash != "" && forall c :: c in hash ==> IsBase58(c)
    ensures ScanFull(FULL_PREFIX + (Decimal(slot) + ("-" + hash))) == Some((slot, hash))
  {
    ScanPrefix(FULL_PREFIX, Decimal(slot) + ("-" + hash));
    ScanDecimal(slot, "-" + hash);
    ScanPrefix("-", hash);
    ScanToken(hash);
  }

  lemma IncrementalStemScans(base: uint64, slot: uint64, hash: string)
    requires hash != "" && forall c :: c in hash ==> IsBase58(c)
    ensures ScanIncremental(INCREMENTAL_PREFIX + (Decimal(base) + ("-" + (Decimal(slot) + ("-" + hash)))))
         == Some((base, slot, hash))
  {
    var tail := Decimal(slot) + ("-" + hash);
    ScanPrefix(INCREMENTAL_PREFIX, Decimal(base) + ("-" + tail));
    ScanDecimal(base, "-" + tail);
    ScanPrefix("-", tail);
    ScanDecimal(slot, "-" + hash);
    ScanPrefix("-", hash);
    ScanToken(hash);
  }

  lemma PrintedStemParses(key: FileKey, encode: Encoder, decode: Decoder)
    requires Inverse(encode, decode)
    requires key.baseSlot != 0 ==> key.baseSlot < key.slot
    ensures ParseStem(PrintStem(key, encode), decode) == Some(key)
  {
    var stem, hash := PrintStem(key, encode), encode(key.hash);
    PrintedStemIsPlain(key, encode, decode);
    PlainIsAllowed(stem);
    if key.baseSlot == 0 {
      FullStemScans(key.slot, hash);
      assert FULL_PREFIX <= stem;
    } else {
      IncrementalStemScans(key.baseSlot, key.slot, hash);
      assert stem[0] == 'i';
      assert INCREMENTAL_PREFIX <= stem;
    }
  }

  lemma {:induction false} ExtOfPlain(s: string)
    requires '.' !in s
    ensures Ext(s) == ""
    decreases |s|
  {
    if s != "" {
      ExtOfPlain(s[..|s| - 1]);
    }
  }

  lemma {:induction false} ExtOfPart(s: string, part: string)
    requires IsExtPart(part) && part != ""
    ensures Ext(s + part) == part
    decreases |part|
  {
    var n := |part| - 1;
    assert (s + part)[..|s + part| - 1] == s + part[..n];
    if n > 0 {
      ExtOfPart(s, part[..n]);
      assert part == part[..n] + [part[n]];
    } else {
      assert part == ".";
    }
  }

  lemma TrimOfPart(s: string, part: string)
    requires IsExtPart(part) && (part == "" ==> '.' !in s)
    ensures Ext(s + part) == part && TrimSuffix(s + part, part) == s
  {
    if part == "" {
      ExtOfPlain(s);
      assert s + part == s;
    } else {
      ExtOfPart(s, part);
    }
  }

  /** A stem without dots and an extension of at most two parts come apart again. */
  lemma SplitInverts(stem: string, inner: string, outer: string)
    requires '.' !in stem && AreExtParts(inner, outer)
    ensures SplitName(stem + (inner + outer)) == (stem, inner + outer)
  {
    assert stem + (inner + outer) == (stem + inner) + outer;
    if outer == "" {
      assert stem + inner == stem;
    }
    TrimOfPart(stem + inner, outer);
    TrimOfPart(stem, inner);
  }

  /** Printing a file's key and extension and parsing the name gives that key and extension. */
  lemma PrintThenParse(key: FileKey, inner: string, outer: string, encode: Encoder, decode: Decoder)
    requires Inverse(encode, decode) && AreExtParts(inner, outer)
    requires key.baseSlot != 0 ==> key.baseSlot < key.slot
    ensures
      var name := PrintName(key, inner + outer, encode);
      Parsed(name, decode) == Some(NamedFile(name, key, inner + outer))
  {
    PrintedStemIsPlain(key, encode, decode);
    PlainIsAllowed(PrintStem(key, encode));
    SplitInverts(PrintStem(key, encode), inner, outer);
    PrintedStemParses(key, encode, decode);
  }

  /** A name is always split into what is left and at most two extension parts. */
  lemma SplitParts(name: string) returns (inner: string, outer: string)
    ensures AreExtParts(inner, outer) && SplitName(name).1 == inner + outer
  {
    outer := Ext(name);
    inner := Ext(TrimSuffix(name, outer));
    if outer == "" {
      assert TrimSuffix(name, outer) == name;
    }
  }

  lemma ParsedKeyIsOrdered(stem: string, decode: Decoder)
    ensures
      var key := ParseStem(stem, decode);
      key.Some? && key.value.baseSlot != 0 ==> key.value.baseSlot < key.value.slot
  {
  }

  /** Whatever the parser accepts: the name is a stem followed by the extension, the extension has
      at most two parts, the stem carries the fields, and an incremental file ends above its base. */
  lemma AcceptedNames(name: string, decode: Decoder)
    returns (stem: string, inner: string, outer: string)
    ensures
      var f := Parsed(name, decode);
      f.Some? ==>
        && f.value == NamedFile(name, KeyOf(f.value), f.value.ext) && WellFormed(f.value)
        && f.value.fileName == name && f.value.downloadURL == "" && f.value.size == 0 && f.value.modTime.None?
        && name == stem + f.value.ext && ParseStem(stem, decode) == Some(KeyOf(f.value))
        && f.value.ext == inner + outer && AreExtParts(inner, outer)
  {
    stem := SplitName(name).0;
    inner, outer := SplitParts(name);
    ParsedKeyIsOrdered(stem, decode);
  }

  /** Reprinting an accepted name and parsing it again changes nothing but the name, even when the
      name had leading zeros or was an incremental name with base slot 0. */
  lemma ParsePrintParse(name: string, encode: Encoder, decode: Decoder, f: SnapshotFile)
    requires Inverse(encode, decode) && Parsed(name, decode) == Some(f)
    ensures
      var again := PrintName(KeyOf(f), f.ext, encode);
      Parsed(again, decode) == Some(f.(fileName := again))
  {
    var _, inner, outer := AcceptedNames(name, decode);
    PrintThenParse(KeyOf(f), inner, outer, encode, decode);
  }

  // ---- Exactly which names are accepted

  predicate AllSpace(s: string) {
    forall c :: c in s ==> IsSpace(c)
  }

  predicate SpaceFree(s: string) {
    forall c :: c in s ==> !IsSpace(c)
  }

  /** White space, then the digits of n. */
  ghost predicate IsNumber(text: string, n: uint64) {
    exists digits :: EndsInNumber(text, digits, n)
  }

  predicate EndsInNumber(text: string, digits: string, n: uint64) {
    && digits != "" && AllDigits(digits) && NatOf(digits) == n
    && |digits| <= |text| && text[|text| - |digits|..] == digits && AllSpace(text[..|text| - |digits|])
  }

  /** White space, then the word, then nothing or more white space and anything. */
  ghost predicate BeginsWithWord(text: string, word: string) {
    exists i :: HasWordAt(text, word, i)
  }

  predicate HasWordAt(text: string, word: string, i: int) {
    && 0 <= i <= |text| && AllSpace(text[..i]) && word <= text[i..]
    && word != "" && SpaceFree(word)
    && (i + |word| == |text| || IsSpace(text[i + |word|]))
  }

  predicate IsFullStem(stem: string, number: string, tail: string) {
    stem == FULL_PREFIX + (number + ("-" + tail))
  }

  predicate IsIncrementalStem(stem: string, base: string, slot: string, tail: string) {
    stem == INCREMENTAL_PREFIX + (base + ("-" + (slot + ("-" + tail))))
  }

  lemma {:induction false} SkipSpaceSplits(s: string) returns (space: string)
    ensures s == space + SkipSpace(s) && AllSpace(space)
    ensures SkipSpace(s) == "" || !IsSpace(SkipSpace(s)[0])
    decreases |s|
  {
    space := "";
    if s != "" && IsSpace(s[0]) {
      var rest := SkipSpaceSplits(s[1..]);
      space := [s[0]] + rest;
      assert s == [s[0]] + s[1..];
    }
  }

  lemma {:induction false} SkipSpaceOf(space: string, rest: string)
    requires AllSpace(space) && (rest == "" || !IsSpace(rest[0]))
    ensures SkipSpace(space + rest) == rest
    decreases |space|
  {
    if space == "" {
      assert space + rest == rest;
    } else {
      assert space[0] in space;
      assert (space + rest)[1..] == space[1..] + rest;
      SkipSpaceOf(space[1..], rest);
    }
  }

  lemma {:induction false} RunsAreMaximal(s: string)
    ensures DigitRun(s) < |s| ==> !IsDigit(s[DigitRun(s)])
    ensures TokenRun(s) < |s| ==> IsSpace(s[TokenRun(s)])
    ensures SpaceFree(s[..TokenRun(s)])
    decreases |s|
  {
    if s != "" {
      RunsAreMaximal(s[1..]);
      if !IsSpace(s[0]) {
        assert s[..TokenRun(s)] == [s[0]] + s[1..][..TokenRun(s[1..])];
      }
    }
  }

  lemma {:induction false} TokenRunStops(word: string, rest: string)
    requires SpaceFree(word) && (rest == "" || IsSpace(rest[0]))
    ensures TokenRun(word + rest) == |word|
    decreases |word|
  {
    if word == "" {
      assert word + rest == rest;
    } else {
      assert word[0] in word;
      assert (word + rest)[1..] == word[1..] + rest;
      TokenRunStops(word[1..], rest);
    }
  }

  /** Scanning a number reads white space and all the digits that follow. */
  lemma ScanUintReads(s: string) returns (text: string)
    requires ScanUint(s).Some?
    ensures
      var (n, rest) := ScanUint(s).value;
      IsNumber(text, n) && s == text + rest
  {
    var space := SkipSpaceSplits(s);
    var body := SkipSpace(s);
    var digits := body[..DigitRun(body)];
    DigitRunIsDigits(body);
    text := space + digits;
    assert text[|text| - |digits|..] == digits && text[..|text| - |digits|] == space;
    assert EndsInNumber(text, digits, NatOf(digits));
    assert body == digits + body[DigitRun(body)..];
  }

  lemma ScanUintOf(text: string, n: uint64, rest: string)
    requires IsNumber(text, n) && (rest == "" || !IsDigit(rest[0]))
    ensures ScanUint(text + rest) == Some((n, rest))
  {
    var digits :| EndsInNumber(text, digits, n);
    var space := text[..|text| - |digits|];
    assert text + rest == space + (digits + rest);
    SkipSpaceOf(space, digits + rest);
    DigitRunStops(digits, rest);
    assert (digits + rest)[..|digits|] == digits && (digits + rest)[|digits|..] == rest;
  }

  /** Scanning a string reads one word. */
  lemma ScanStringReads(s: string)
    requires ScanString(s).Some?
    ensures BeginsWithWord(s, ScanString(s).value)
  {
    var space := SkipSpaceSplits(s);
    var body := SkipSpace(s);
    RunsAreMaximal(body);
    assert s[..|space|] == space && s[|space|..] == body;
    assert HasWordAt(s, ScanString(s).value, |space|);
  }

  lemma ScanStringOf(s: string, word: string)
    requires BeginsWithWord(s, word)
    ensures ScanString(s) == Some(word)
  {
    var i :| HasWordAt(s, word, i);
    var rest := s[i + |word|..];
    assert s[i..] == word + rest && s == s[..i] + (word + rest);
    assert word[0] in word;
    SkipSpaceOf(s[..i], word + rest);
    TokenRunStops(word, rest);
  }

  lemma LiteralSplits(s: string, literal: string)
    requires ScanLiteral(s, literal).Some?
    ensures s == literal + ScanLiteral(s, literal).value
  {
  }

  lemma FullScanReads(stem: string) returns (number: string, tail: string)
    requires ScanFull(stem).Some?
    ensures
      var (slot, hash) := ScanFull(stem).value;
      IsFullStem(stem, number, tail) && IsNumber(number, slot) && BeginsWithWord(tail, hash)
  {
    LiteralSplits(stem, FULL_PREFIX);
    var s := ScanLiteral(stem, FULL_PREFIX).value;
    number := ScanUintReads(s);
    LiteralSplits(ScanUint(s).value.1, "-");
    tail := ScanLiteral(ScanUint(s).value.1, "-").value;
    ScanStringReads(tail);
  }

  lemma FullScanOf(number: string, slot: uint64, tail: string, hash: string)
    requires IsNumber(number, slot) && BeginsWithWord(tail, hash)
    ensures ScanFull(FULL_PREFIX + (number + ("-" + tail))) == Some((slot, hash))
  {
    ScanPrefix(FULL_PREFIX, number + ("-" + tail));
    ScanUintOf(number, slot, "-" + tail);
    ScanPrefix("-", tail);
    ScanStringOf(tail, hash);
  }

  lemma IncrementalScanReads(stem: string) returns (b: string, d: string, tail: string)
    requires ScanIncremental(stem).Some?
    ensures
      var (base, slot, hash) := ScanIncremental(stem).value;
      IsIncrementalStem(stem, b, d, tail) && IsNumber(b, base) && IsNumber(d, slot) && BeginsWithWord(tail, hash)
  {
    LiteralSplits(stem, INCREMENTAL_PREFIX);
    var s := ScanLiteral(stem, INCREMENTAL_PREFIX).value;
    b := ScanUintReads(s);
    LiteralSplits(ScanUint(s).value.1, "-");
    var t := ScanLiteral(ScanUint(s).value.1, "-").value;
    d := ScanUintReads(t);
    LiteralSplits(ScanUint(t).value.1, "-");
    tail := ScanLiteral(ScanUint(t).value.1, "-").value;
    ScanStringReads(tail);
  }

  lemma IncrementalScanOf(b: string, base: uint64, d: string, slot: uint64, tail: string, hash: string)
    requires IsNumber(b, base) && IsNumber(d, slot) && BeginsWithWord(tail, hash)
    ensures ScanIncremental(INCREMENTAL_PREFIX + (b + ("-" + (d + ("-" + tail))))) == Some((base, slot, hash))
  {
    ScanPrefix(INCREMENTAL_PREFIX, b + ("-" + (d + ("-" + tail))));
    ScanUintOf(b, base, "-" + (d + ("-" + tail)));
    ScanPrefix("-", d + ("-" + tail));
    ScanUintOf(d, slot, "-" + tail);
    ScanPrefix("-", tail);
    ScanStringOf(tail, hash);
  }

  /** The two forms of a snapshot name's stem. */
  ghost predicate IsStem(stem: string, key: FileKey, hash: string) {
    || (key.baseSlot == 0
        && exists number, tail ::
             IsFullStem(stem, number, tail) && IsNumber(number, key.slot) && BeginsWithWord(tail, hash))
    || (key.baseSlot < key.slot
        && exists b, d, tail ::
             && IsIncrementalStem(stem, b, d, tail)
             && IsNumber(b, key.baseSlot) && IsNumber(d, key.slot) && BeginsWithWord(tail, hash))
  }

  lemma AcceptedStemHasForm(stem: string, key: FileKey, decode: Decoder) returns (hash: string)
    requires ParseStem(stem, decode) == Some(key)
    ensures IsStem(stem, key, hash) && decode(hash) == Some(key.hash)
  {
    if FULL_PREFIX <= stem {
      hash := ScanFull(stem).value.1;
      var number, tail := FullScanReads(stem);
    } else {
      hash := ScanIncremental(stem).value.2;
      var b, d, tail := IncrementalScanReads(stem);
    }
  }

  lemma FormIsAccepted(stem: string, key: FileKey, hash: string, decode: Decoder)
    requires !ContainsAny(stem, "\\/ \t\n")
    requires IsStem(stem, key, hash) && decode(hash) == Some(key.hash)
    ensures ParseStem(stem, decode) == Some(key)
  {
    if number, tail :|
      key.baseSlot == 0 && IsFullStem(stem, number, tail)
      && IsNumber(number, key.slot) && BeginsWithWord(tail, hash)
    {
      FullScanOf(number, key.slot, tail, hash);
      assert FULL_PREFIX <= stem;
    } else {
      var b, d, tail :|
        && IsIncrementalStem(stem, b, d, tail)
        && IsNumber(b, key.baseSlot) && IsNumber(d, key.slot) && BeginsWithWord(tail, hash);
      IncrementalScanOf(b, key.baseSlot, d, key.slot, tail, hash);
      assert stem[0] == 'i';
      assert INCREMENTAL_PREFIX <= stem;
    }
  }

  /** A stem is accepted, with a given slot, base slot and hash, if and only if it holds none of the
      forbidden characters and has one of the two forms: its numbers fit 64 bits and have these
      values, the base is below the slot, and the word after the last hyphen decodes to the hash. */
  lemma ParserAcceptsIff(stem: string, key: FileKey, decode: Decoder)
    ensures ParseStem(stem, decode) == Some(key)
            <==> !ContainsAny(stem, "\\/ \t\n")
                 && exists hash :: IsStem(stem, key, hash) && decode(hash) == Some(key.hash)
  {
    if ParseStem(stem, decode) == Some(key) {
      var hash := AcceptedStemHasForm(stem, key, decode);
    }
    if hash :| !ContainsAny(stem, "\\/ \t\n") && IsStem(stem, key, hash) && decode(hash) == Some(key.hash) {
      FormIsAccepted(stem, key, hash, decode);
    }
  }
}
