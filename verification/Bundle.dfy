/** The bundle container (packages/atrium/src/utils/bundle.ts), before compression. */
module Bundles {
  import opened Common

  newtype Byte = x: int | 0 <= x < 256

  datatype File = File(name: seq<Byte>, content: seq<Byte>)

  datatype EncodeError = PathTooLong(name: seq<Byte>) | TooManyFiles

  datatype DecodeError =
    | TooSmall
    | BadMagic
    | TruncatedHeader
    | TruncatedName
    | TruncatedSize
    | SizeOutOfRange
    | TruncatedContent

  /** "BTSTBND1" */
  const MAGIC: seq<Byte> := [0x42, 0x54, 0x53, 0x54, 0x42, 0x4E, 0x44, 0x31]

  // ----- little-endian numbers -----

  function Le(n: nat, k: nat): (s: seq<Byte>)
    ensures |s| == k
  {
    if k == 0 then [] else [(n % 256) as Byte] + Le(n / 256, k - 1)
  }

  function LeValue(s: seq<Byte>): nat {
    if s == [] then 0 else s[0] as int + 256 * LeValue(s[1..])
  }

  function Range(k: nat): (r: nat)
    ensures r > 0
  {
    if k == 0 then 1 else 256 * Range(k - 1)
  }

  lemma {:induction false} LeRoundTrip(n: nat, k: nat)
    requires n < Range(k)
    ensures LeValue(Le(n, k)) == n
    decreases k
  {
    if k > 0 {
      LeRoundTrip(n / 256, k - 1);
      assert Le(n, k)[1..] == Le(n / 256, k - 1);
    }
  }

  lemma {:induction false} LeValueRoundTrip(s: seq<Byte>)
    ensures Le(LeValue(s), |s|) == s && LeValue(s) < Range(|s|)
  {
    if s != [] {
      LeValueRoundTrip(s[1..]);
      var rest := LeValue(s[1..]);
      assert (s[0] as int + 256 * rest) % 256 == s[0] as int;
      assert (s[0] as int + 256 * rest) / 256 == rest;
    }
  }

  /** The i-th byte is the i-th digit to the base 256, lowest first. */
  ghost predicate IsLittleEndian(s: seq<Byte>, n: nat) {
    forall i :: 0 <= i < |s| ==> s[i] as int == n / Range(i) % 256
  }

  lemma {:induction false} LeIsLittleEndian(n: nat, k: nat)
    ensures IsLittleEndian(Le(n, k), n)
    decreases k
  {
    var s := Le(n, k);
    forall i | 0 <= i < |s| ensures s[i] as int == n / Range(i) % 256 {
      if i > 0 {
        LeIsLittleEndian(n / 256, k - 1);
        assert s[i] == Le(n / 256, k - 1)[i - 1];
        DivTwice(n, Range(i - 1));
      }
    }
  }

  lemma DivTwice(n: nat, d: nat)
    requires d > 0
    ensures n / 256 / d == n / (256 * d)
  {
    var q, r := n / 256, n % 256;
    var t, u := q / d, q % d;
    assert n == 256 * (t * d + u) + r == (256 * d) * t + (256 * u + r);
    assert 256 * u + r < 256 * d;
    QuotientIs(n, 256 * d, t, 256 * u + r);
  }

  lemma QuotientIs(n: nat, d: nat, q: nat, r: nat)
    requires n == d * q + r && r < d
    ensures n / d == q
  {
    var p := n / d;
    assert n == d * p + n % d;
    NextMultiple(d, p, q);
    NextMultiple(d, q, p);
  }

  lemma {:induction false} NextMultiple(d: nat, a: nat, b: nat)
    ensures a < b ==> d * a + d <= d * b
    decreases b
  {
    if a + 1 < b {
      NextMultiple(d, a, b - 1);
      assert d * b == d * (b - 1) + d;
    } else if a + 1 == b {
      assert d * (a + 1) == d * a + d;
    }
  }

  lemma Ranges()
    ensures Range(2) == 0x1_0000 && Range(4) == 0x1_0000_0000 && Range(8) == 0x1_0000_0000_0000_0000
  {
    assert Range(1) == 256 && Range(3) == 0x100_0000;
    assert Range(5) == 0x100_0000_0000 && Range(6) == 0x1_0000_0000_0000 && Range(7) == 0x100_0000_0000_0000;
  }

  // ----- the container -----

  function EncodeFile(f: File): seq<Byte> {
    Le(|f.name|, 2) + f.name + Le(|f.content|, 8) + f.content
  }

  function EncodeFiles(files: seq<File>): seq<Byte> {
    if files == [] then [] else EncodeFile(files[0]) + EncodeFiles(files[1..])
  }

  function FirstTooLong(files: seq<File>): Option<seq<Byte>> {
    if files == [] then None
    else if |files[0].name| > 0xFFFF then Some(files[0].name)
    else FirstTooLong(files[1..])
  }

  /** The container of a list of files, or why there is none. */
  function Encode(files: seq<File>): Result<seq<Byte>, EncodeError> {
    if FirstTooLong(files).Some? then Err(PathTooLong(FirstTooLong(files).value))
    else if |files| > 0xFFFF_FFFF then Err(TooManyFiles)
    else Ok(MAGIC + Le(|files|, 4) + EncodeFiles(files))
  }

  /** One entry at the front of s, with what follows it. */
  function DecodeFile(s: seq<Byte>): (r: Result<(File, seq<Byte>), DecodeError>)
    ensures r.Ok? ==> |r.value.1| < |s|
  {
    if 2 > |s| then Err(TruncatedHeader)
    else
      var nameLen := LeValue(s[..2]);
      var s1 := s[2..];
      if nameLen > |s1| then Err(TruncatedName)
      else
        var s2 := s1[nameLen..];
        if 8 > |s2| then Err(TruncatedSize)
        else
          var size := LeValue(s2[..8]);
          var s3 := s2[8..];
          if size > MAX_SAFE_INTEGER then Err(SizeOutOfRange)
          else if size > |s3| then Err(TruncatedContent)
          else Ok((File(s1[..nameLen], s3[..size]), s3[size..]))
  }

  function DecodeFiles(s: seq<Byte>, count: nat): Result<seq<File>, DecodeError> {
    if count == 0 then Ok([])
    else
      match DecodeFile(s)
      case Err(e) => Err(e)
      case Ok((f, rest)) =>
        match DecodeFiles(rest, count - 1)
        case Err(e) => Err(e)
        case Ok(files) => Ok([f] + files)
  }

  function Decode(raw: seq<Byte>): Result<seq<File>, DecodeError> {
    if |raw| < |MAGIC| + 4 then Err(TooSmall)
    else if raw[..|MAGIC|] != MAGIC then Err(BadMagic)
    else DecodeFiles(raw[|MAGIC| + 4..], LeValue(raw[|MAGIC|..|MAGIC| + 4]))
  }

  predicate Encodable(f: File) {
    |f.name| <= 0xFFFF && |f.content| <= MAX_SAFE_INTEGER
  }

  lemma {:induction false} NoneTooLong(files: seq<File>)
    ensures FirstTooLong(files).None? <==> forall f :: f in files ==> |f.name| <= 0xFFFF
  {
    if files != [] {
      NoneTooLong(files[1..]);
      forall f ensures f in files <==> f == files[0] || f in files[1..] {
        InSplit(files, f);
      }
    }
  }

  lemma EncodeFileSplit(f: File, rest: seq<Byte>)
    ensures EncodeFile(f) + rest == Le(|f.name|, 2) + (f.name + (Le(|f.content|, 8) + (f.content + rest)))
  {
    hide Le;
  }

  /** An entry followed by anything decodes to that entry and what follows. */
  lemma FileRoundTrip(f: File, rest: seq<Byte>)
    requires Encodable(f)
    ensures DecodeFile(EncodeFile(f) + rest) == Ok((f, rest))
  {
    hide Le, LeValue, Range, EncodeFile;
    Ranges();
    LeRoundTrip(|f.name|, 2);
    LeRoundTrip(|f.content|, 8);
    EncodeFileSplit(f, rest);
    var s3 := f.content + rest;
    var s2 := Le(|f.content|, 8) + s3;
    var s1 := f.name + s2;
    ConcatSplit(Le(|f.name|, 2), s1);
    ConcatSplit(f.name, s2);
    ConcatSplit(Le(|f.content|, 8), s3);
    ConcatSplit(f.content, rest);
  }

  lemma {:induction false} FilesRoundTrip(files: seq<File>, rest: seq<Byte>)
    requires forall f :: f in files ==> Encodable(f)
    ensures DecodeFiles(EncodeFiles(files) + rest, |files|) == Ok(files)
  {
    hide EncodeFile, DecodeFile, Encodable;
    if files == [] {
      assert EncodeFiles(files) + rest == rest;
    } else {
      var f, tail := files[0], files[1..];
      assert f in files && forall g :: g in tail ==> g in files;
      FileRoundTrip(f, EncodeFiles(tail) + rest);
      FilesRoundTrip(tail, rest);
      Assoc(EncodeFile(f), EncodeFiles(tail), rest);
      assert files == [f] + tail;
    }
  }

  ghost predicate AllEncodable(files: seq<File>) {
    |files| <= 0xFFFF_FFFF && forall f :: f in files ==> Encodable(f)
  }

  /** The header and the body of a container. */
  ghost function Container(count: seq<Byte>, body: seq<Byte>): seq<Byte> {
    MAGIC + (count + body)
  }

  lemma DecodeContainer(count: seq<Byte>, body: seq<Byte>)
    requires |count| == 4
    ensures Decode(Container(count, body)) == DecodeFiles(body, LeValue(count))
  {
    hide LeValue, DecodeFiles;
    var raw := Container(count, body);
    ConcatSplit(MAGIC, count + body);
    ConcatSplit(count, body);
    assert raw[|MAGIC|..|MAGIC| + 4] == raw[|MAGIC|..][..4];
    assert raw[|MAGIC| + 4..] == raw[|MAGIC|..][4..];
  }

  lemma EncodeContainer(files: seq<File>)
    requires AllEncodable(files)
    ensures Encode(files) == Ok(Container(Le(|files|, 4), EncodeFiles(files)))
  {
    hide EncodeFiles, Le, FirstTooLong;
    NoneTooLong(files);
    var count, body := Le(|files|, 4), EncodeFiles(files);
    assert MAGIC + count + body == MAGIC + (count + body);
  }

  /** Decoding an encoding gives the same files in the same order, whatever follows it. */
  lemma BundleRoundTrip(files: seq<File>, rest: seq<Byte>)
    requires AllEncodable(files)
    ensures Encode(files).Ok? && Decode(Encode(files).value + rest) == Ok(files)
  {
    Ranges();
    LeRoundTrip(|files|, 4);
    hide Le, LeValue, Range, EncodeFiles, DecodeFiles, Encode, Decode;
    FilesRoundTrip(files, rest);
    EncodeContainer(files);
    DecodeContainer(Le(|files|, 4), EncodeFiles(files) + rest);
    ContainerExtend(Le(|files|, 4), EncodeFiles(files), rest);
  }

  lemma ContainerExtend(count: seq<Byte>, body: seq<Byte>, rest: seq<Byte>)
    ensures Container(count, body) + rest == Container(count, body + rest)
  {
  }

  /** The fields a decoded entry was cut from. */
  lemma DecodedFields(s: seq<Byte>) returns (nameLen: seq<Byte>, size: seq<Byte>)
    requires DecodeFile(s).Ok?
    ensures var (f, rest) := DecodeFile(s).value;
            && |nameLen| == 2 && |size| == 8
            && LeValue(nameLen) == |f.name| && LeValue(size) == |f.content| <= MAX_SAFE_INTEGER
            && s == nameLen + (f.name + (size + (f.content + rest)))
  {
    hide LeValue;
    nameLen := s[..2];
    var s1 := s[2..];
    var n := LeValue(nameLen);
    var s2 := s1[n..];
    size := s2[..8];
    TakeDrop(s, 2);
    TakeDrop(s1, n);
    TakeDrop(s2, 8);
    TakeDrop(s2[8..], LeValue(size));
  }

  /** What one entry decodes from is its encoding and the rest: the decoder is canonical. */
  lemma FileCanonical(s: seq<Byte>)
    requires DecodeFile(s).Ok?
    ensures var (f, rest) := DecodeFile(s).value;
            Encodable(f) && s == EncodeFile(f) + rest
  {
    hide Le, LeValue, Range, EncodeFile, DecodeFile;
    var nameLen, size := DecodedFields(s);
    Ranges();
    LeValueRoundTrip(nameLen);
    LeValueRoundTrip(size);
    var (f, rest) := DecodeFile(s).value;
    EncodeFileSplit(f, rest);
  }

  lemma {:induction false} FilesCanonical(s: seq<Byte>, count: nat)
    requires DecodeFiles(s, count).Ok?
    ensures var files := DecodeFiles(s, count).value;
            |files| == count && (forall f :: f in files ==> Encodable(f)) && EncodeFiles(files) <= s
    decreases count
  {
    hide DecodeFile, EncodeFile;
    if count > 0 {
      FileCanonical(s);
      var (f, rest) := DecodeFile(s).value;
      FilesCanonical(rest, count - 1);
      var tail := DecodeFiles(rest, count - 1).value;
      var files := [f] + tail;
      assert files[1..] == tail;
      var extra := rest[|EncodeFiles(tail)|..];
      assert rest == EncodeFiles(tail) + extra;
      assert s == EncodeFile(f) + EncodeFiles(tail) + extra;
    }
  }

  lemma SplitContainer(raw: seq<Byte>) returns (count: seq<Byte>, body: seq<Byte>)
    requires Decode(raw).Ok?
    ensures |count| == 4 && raw == Container(count, body)
  {
    hide DecodeFiles, LeValue;
    count, body := raw[|MAGIC|..|MAGIC| + 4], raw[|MAGIC| + 4..];
  }

  lemma BodyCanonical(count: seq<Byte>, body: seq<Byte>, files: seq<File>)
    requires |count| == 4 && DecodeFiles(body, LeValue(count)) == Ok(files)
    ensures AllEncodable(files) && EncodeFiles(files) <= body
    ensures Encode(files) == Ok(Container(count, EncodeFiles(files)))
  {
    Ranges();
    LeValueRoundTrip(count);
    hide Le, LeValue, Range, EncodeFiles, DecodeFiles, Encode, Container;
    FilesCanonical(body, LeValue(count));
    EncodeContainer(files);
  }

  /** What decodes is an encoding of the result, possibly followed by other bytes. */
  lemma DecodeCanonical(raw: seq<Byte>)
    requires Decode(raw).Ok?
    ensures var files := Decode(raw).value;
            AllEncodable(files) && Encode(files).Ok? && Encode(files).value <= raw
  {
    hide Le, LeValue, Range, EncodeFiles, DecodeFiles, Encode, Decode, Container, AllEncodable;
    var count, body := SplitContainer(raw);
    DecodeContainer(count, body);
    var files := Decode(raw).value;
    BodyCanonical(count, body, files);
    var extra := body[|EncodeFiles(files)|..];
    assert body == EncodeFiles(files) + extra;
    ContainerExtend(count, EncodeFiles(files), extra);
    PrefixOfConcat(Container(count, EncodeFiles(files)), extra);
  }

  lemma PrefixOfConcat(a: seq<Byte>, b: seq<Byte>)
    ensures a <= a + b
  {
  }

  /** The decoder accepts exactly the encodings followed by arbitrary bytes, and returns
      what was encoded. */
  lemma DecodeExact(raw: seq<Byte>, files: seq<File>)
    ensures Decode(raw) == Ok(files) <==>
            AllEncodable(files) && Encode(files).Ok? && Encode(files).value <= raw
  {
    hide Decode, Encode, AllEncodable;
    if Decode(raw).Ok? {
      DecodeCanonical(raw);
    }
    if AllEncodable(files) && Encode(files).Ok? && Encode(files).value <= raw {
      var rest := raw[|Encode(files).value|..];
      BundleRoundTrip(files, rest);
      assert raw == Encode(files).value + rest;
    }
  }

  /** No strict prefix of an encoding is accepted. */
  lemma PrefixRejected(files: seq<File>, k: nat)
    requires AllEncodable(files) && Encode(files).Ok? && k < |Encode(files).value|
    ensures Decode(Encode(files).value[..k]).Err?
  {
    hide Decode, Encode, AllEncodable;
    var enc := Encode(files).value;
    var cut := enc[..k];
    DecodeExact(enc, files);
    if Decode(cut).Ok? {
      var files' := Decode(cut).value;
      DecodeExact(cut, files');
      assert cut <= enc;
      DecodeExact(enc, files');
    }
  }

  // ----- the loops -----

  method PackContainer(files: seq<File>) returns (r: Result<seq<Byte>, EncodeError>)
    ensures r == Encode(files)
  {
    var interleaved: seq<Byte> := [];
    assert files[0..] == files;
    for i := 0 to |files|
      invariant interleaved + EncodeFiles(files[i..]) == EncodeFiles(files)
      invariant FirstTooLong(files) == FirstTooLong(files[i..])
    {
      var f := files[i];
      assert files[i..][0] == f && files[i..][1..] == files[i + 1..];
      if |f.name| > 0xFFFF {
        return Err(PathTooLong(f.name));
      }
      var header := Le(|f.name|, 2) + f.name + Le(|f.content|, 8);
      assert header + f.content == EncodeFile(f);
      assert interleaved + (EncodeFile(f) + EncodeFiles(files[i + 1..])) ==
             interleaved + header + f.content + EncodeFiles(files[i + 1..]);
      interleaved := interleaved + header + f.content;
    }
    assert interleaved + [] == interleaved;
    if |files| > 0xFFFF_FFFF {
      return Err(TooManyFiles);
    }
    r := Ok(MAGIC + Le(|files|, 4) + interleaved);
  }

  function EntrySize(f: File): nat {
    2 + |f.name| + 8 + |f.content|
  }

  /** Where the i-th entry begins, after the first twelve bytes. */
  function Offset(files: seq<File>, i: nat): nat
    requires i <= |files|
  {
    if i == 0 then 0 else EntrySize(files[0]) + Offset(files[1..], i - 1)
  }

  /** Name length, name, content size, content. */
  ghost predicate EntryAt(raw: seq<Byte>, o: nat, f: File) {
    var name := o + 2;
    var size := name + |f.name|;
    var content := size + 8;
    && content + |f.content| <= |raw|
    && IsLittleEndian(raw[o..name], |f.name|) && raw[name..size] == f.name
    && IsLittleEndian(raw[size..content], |f.content|) && raw[content..content + |f.content|] == f.content
  }

  lemma OneEntry(f: File, rest: seq<Byte>)
    ensures EntryAt(EncodeFile(f) + rest, 0, f) && |EncodeFile(f)| == EntrySize(f)
  {
    var a, b := Le(|f.name|, 2), Le(|f.content|, 8);
    var raw := EncodeFile(f) + rest;
    LeIsLittleEndian(|f.name|, 2);
    LeIsLittleEndian(|f.content|, 8);
    var name := 2;
    var size := name + |f.name|;
    var content := size + 8;
    assert raw[0..name] == a && raw[name..size] == f.name;
    assert raw[size..content] == b && raw[content..content + |f.content|] == f.content;
  }

  lemma EntryShift(head: seq<Byte>, raw: seq<Byte>, o: nat, f: File)
    requires EntryAt(raw, o, f)
    ensures EntryAt(head + raw, |head| + o, f)
  {
    var all, h := head + raw, |head|;
    var name := o + 2;
    var size := name + |f.name|;
    var content := size + 8;
    assert all[h + o..h + name] == raw[o..name] && all[h + name..h + size] == raw[name..size];
    assert all[h + size..h + content] == raw[size..content];
    assert all[h + content..h + content + |f.content|] == raw[content..content + |f.content|];
  }

  lemma {:induction false} EntriesAt(files: seq<File>)
    ensures |EncodeFiles(files)| == Offset(files, |files|)
    ensures forall i :: 0 <= i < |files| ==> EntryAt(EncodeFiles(files), Offset(files, i), files[i])
  {
    if files != [] {
      hide EntryAt, EncodeFile;
      var f, tail := files[0], files[1..];
      OneEntry(f, EncodeFiles(tail));
      EntriesAt(tail);
      forall i | 0 <= i < |files| ensures EntryAt(EncodeFiles(files), Offset(files, i), files[i]) {
        if i > 0 {
          EntryShift(EncodeFile(f), EncodeFiles(tail), Offset(tail, i - 1), tail[i - 1]);
        }
      }
    }
  }

  /** The layout of a container: magic, number of files, and the entries one after the other. */
  lemma ContainerLayout(files: seq<File>)
    requires Encode(files).Ok?
    ensures var raw := Encode(files).value;
            && |raw| == 12 + Offset(files, |files|)
            && raw[..8] == [0x42, 0x54, 0x53, 0x54, 0x42, 0x4E, 0x44, 0x31]
            && IsLittleEndian(raw[8..12], |files|)
            && forall i :: 0 <= i < |files| ==> EntryAt(raw, 12 + Offset(files, i), files[i])
  {
    var head, body := MAGIC + Le(|files|, 4), EncodeFiles(files);
    var raw := head + body;
    LeIsLittleEndian(|files|, 4);
    assert raw[..8] == MAGIC && raw[8..12] == Le(|files|, 4);
    EntriesAt(files);
    forall i | 0 <= i < |files| ensures EntryAt(raw, 12 + Offset(files, i), files[i]) {
      EntryShift(head, body, Offset(files, i), files[i]);
    }
  }

  /** What is wrong with the entry at the front of s, told by absolute positions. */
  ghost predicate Blames(s: seq<Byte>, e: DecodeError) {
    match e
    case TruncatedHeader => |s| < 2
    case TruncatedName => |s| >= 2 && |s| < 2 + LeValue(s[..2])
    case TruncatedSize => |s| >= 2 && 2 + LeValue(s[..2]) <= |s| < 10 + LeValue(s[..2])
    case SizeOutOfRange =>
      && |s| >= 2 && 10 + LeValue(s[..2]) <= |s|
      && LeValue(s[2 + LeValue(s[..2])..10 + LeValue(s[..2])]) > MAX_SAFE_INTEGER
    case TruncatedContent =>
      && |s| >= 2 && 10 + LeValue(s[..2]) <= |s|
      && var size := LeValue(s[2 + LeValue(s[..2])..10 + LeValue(s[..2])]);
         size <= MAX_SAFE_INTEGER && |s| < 10 + LeValue(s[..2]) + size
    case _ => false
  }

  /** An entry is refused for exactly the reason that is given. */
  lemma EntryErrors(s: seq<Byte>, e: DecodeError)
    ensures DecodeFile(s) == Err(e) <==> Blames(s, e)
  {
    if |s| >= 2 {
      var n := LeValue(s[..2]);
      var s1 := s[2..];
      if n + 8 <= |s1| {
        assert s1[n..][..8] == s[2 + n..10 + n];
      }
    }
  }

  /** Why a list of files has no container: the first name that is too long, else the count. */
  lemma EncodeErrors(files: seq<File>)
    ensures Encode(files).Ok? <==> |files| <= 0xFFFF_FFFF && forall f :: f in files ==> |f.name| <= 0xFFFF
    ensures Encode(files) == Err(TooManyFiles) <==>
            |files| > 0xFFFF_FFFF && forall f :: f in files ==> |f.name| <= 0xFFFF
    ensures Encode(files).Err? && Encode(files).error.PathTooLong? ==>
              exists i :: 0 <= i < |files| && FirstLong(files, i) && files[i].name == Encode(files).error.name
  {
    NoneTooLong(files);
    if FirstTooLong(files).Some? {
      var i := LongAt(files);
    }
  }

  ghost predicate FirstLong(files: seq<File>, i: nat) {
    i < |files| && |files[i].name| > 0xFFFF && forall j :: 0 <= j < i ==> |files[j].name| <= 0xFFFF
  }

  lemma {:induction false} LongAt(files: seq<File>) returns (i: nat)
    requires FirstTooLong(files).Some?
    ensures FirstLong(files, i) && FirstTooLong(files) == Some(files[i].name)
  {
    if |files[0].name| > 0xFFFF {
      i := 0;
    } else {
      i := LongAt(files[1..]);
      i := i + 1;
    }
  }

  /** Prefix the decoded files of the remaining input. */
  ghost function Prepend(done: seq<File>, r: Result<seq<File>, DecodeError>): Result<seq<File>, DecodeError> {
    match r
    case Err(e) => Err(e)
    case Ok(files) => Ok(done + files)
  }

  /** One pass of the decoding loop: read an entry at the offset. */
  method UnpackEntry(raw: seq<Byte>, start: nat) returns (r: Result<File, DecodeError>, offset: nat)
    requires start <= |raw|
    ensures r.Err? ==> DecodeFile(raw[start..]) == Err(r.error)
    ensures r.Ok? ==> offset <= |raw| && DecodeFile(raw[start..]) == Ok((r.value, raw[offset..]))
  {
    hide LeValue;
    offset := start;
    if offset + 2 > |raw| {
      return Err(TruncatedHeader), offset;
    }
    var nameLen := LeValue(raw[offset..offset + 2]);
    SliceOfTail(raw, offset, 2);
    offset := offset + 2;
    if offset + nameLen > |raw| {
      return Err(TruncatedName), offset;
    }
    var name := raw[offset..offset + nameLen];
    SliceOfTail(raw, offset, nameLen);
    offset := offset + nameLen;
    if offset + 8 > |raw| {
      return Err(TruncatedSize), offset;
    }
    var size := LeValue(raw[offset..offset + 8]);
    SliceOfTail(raw, offset, 8);
    offset := offset + 8;
    if size > MAX_SAFE_INTEGER {
      return Err(SizeOutOfRange), offset;
    }
    if offset + size > |raw| {
      return Err(TruncatedContent), offset;
    }
    var content := raw[offset..offset + size];
    SliceOfTail(raw, offset, size);
    offset := offset + size;
    r := Ok(File(name, content));
  }

  method Unpack(raw: seq<Byte>) returns (r: Result<seq<File>, DecodeError>)
    ensures r == Decode(raw)
  {
    hide LeValue, DecodeFile, DecodeFiles;
    if |raw| < |MAGIC| + 4 {
      return Err(TooSmall);
    }
    if raw[..|MAGIC|] != MAGIC {
      return Err(BadMagic);
    }
    var offset := |MAGIC|;
    var count := LeValue(raw[offset..offset + 4]);
    offset := offset + 4;
    var files: seq<File> := [];
    PrependNothing(DecodeFiles(raw[offset..], count));
    for i := 0 to count
      invariant offset <= |raw|
      invariant Prepend(files, DecodeFiles(raw[offset..], count - i)) == Decode(raw)
    {
      ghost var s := raw[offset..];
      var entry, next := UnpackEntry(raw, offset);
      if entry.Err? {
        DecodeFilesStep(s, count - i);
        return Err(entry.error);
      }
      PrependStep(files, entry.value, s, raw[next..], count - i);
      offset := next;
      files := files + [entry.value];
    }
    NoFilesLeft(raw[offset..]);
    assert files + [] == files;
    r := Ok(files);
  }

  lemma NoFilesLeft(s: seq<Byte>)
    ensures DecodeFiles(s, 0) == Ok([])
  {
  }

  lemma DecodeFilesStep(s: seq<Byte>, count: nat)
    requires count > 0 && DecodeFile(s).Err?
    ensures DecodeFiles(s, count) == Err(DecodeFile(s).error)
  {
  }

  lemma PrependNothing(r: Result<seq<File>, DecodeError>)
    ensures Prepend([], r) == r
  {
    if r.Ok? {
      assert [] + r.value == r.value;
    }
  }

  lemma PrependStep(done: seq<File>, f: File, s: seq<Byte>, rest: seq<Byte>, count: nat)
    requires count > 0 && DecodeFile(s) == Ok((f, rest))
    ensures Prepend(done, DecodeFiles(s, count)) == Prepend(done + [f], DecodeFiles(rest, count - 1))
  {
    if DecodeFiles(rest, count - 1).Ok? {
      var files := DecodeFiles(rest, count - 1).value;
      assert done + ([f] + files) == done + [f] + files;
    }
  }
}
