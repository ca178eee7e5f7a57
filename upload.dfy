/** The image-upload route: the extension allow-list of `allowed_file`, the
    timestamped storage key, the public URL of the stored object, and the
    status `upload_image` answers with. */
module Upload {
  import opened Values
  import opened Text

  /** `ALLOWED_EXTENSIONS`. */
  const AllowedExtensions: set<string> := {"png", "jpg", "jpeg", "gif", "webp"}

  /** The index of the last `c` in `s`, or -1 when there is none. */
  function LastIndexOf(s: string, c: char): (r: int)
    ensures -1 <= r < |s|
    ensures r >= 0 ==> s[r] == c && forall k :: r < k < |s| ==> s[k] != c
    ensures r == -1 ==> forall k :: 0 <= k < |s| ==> s[k] != c
  {
    if s == [] then -1
    else if s[|s| - 1] == c then |s| - 1
    else LastIndexOf(s[..|s| - 1], c)
  }

  /** The last `c` is the one followed by no other `c`. */
  lemma LastIndexOfAt(s: string, c: char, i: nat)
    requires i < |s| && s[i] == c
    requires forall k :: i < k < |s| ==> s[k] != c
    ensures LastIndexOf(s, c) == i
  {
  }

  /** `filename.rsplit('.', 1)[1]`: the text after the last dot, which
      holds no dot and follows a dot that ends the rest of the name. */
  function Extension(filename: string): (e: string)
    requires '.' in filename
    ensures |e| < |filename| && filename[|filename| - |e| - 1] == '.'
    ensures e == filename[|filename| - |e|..]
    ensures '.' !in e
  {
    filename[LastIndexOf(filename, '.') + 1..]
  }

  /** `allowed_file(filename)`. */
  predicate AllowedFile(filename: string) {
    '.' in filename && Lower(Extension(filename)) in AllowedExtensions
  }

  /** Position `i` holds the last dot of `filename`. */
  predicate IsLastDot(filename: string, i: int) {
    0 <= i < |filename| && filename[i] == '.'
    && forall k :: i < k < |filename| ==> filename[k] != '.'
  }

  /** The allow-list in words: some dot is followed by no other dot, and the
      text after it, lower-cased, is an allowed extension. */
  lemma AllowedFileIff(filename: string)
    ensures AllowedFile(filename) <==>
      exists i :: IsLastDot(filename, i) && Lower(filename[i + 1..]) in AllowedExtensions
  {
    if AllowedFile(filename) {
      var i := LastIndexOf(filename, '.');
      assert IsLastDot(filename, i);
      assert filename[i + 1..] == Extension(filename);
    }
    if i :| IsLastDot(filename, i) && Lower(filename[i + 1..]) in AllowedExtensions {
      LastIndexOfAt(filename, '.', i);
      assert filename[i + 1..] == Extension(filename);
    }
  }

  /** The extension is compared case-insensitively. */
  lemma UpperCaseExtensionAllowed()
    ensures AllowedFile("photo.PNG")
  {
    LastIndexOfAt("photo.PNG", '.', 5);
    assert Extension("photo.PNG") == "PNG";
    assert Lower("PNG") == "png";
  }

  /** An extension outside the allow-list is refused. */
  lemma OtherExtensionRefused()
    ensures !AllowedFile("photo.exe")
  {
    LastIndexOfAt("photo.exe", '.', 5);
    assert Extension("photo.exe") == "exe";
    assert Lower("exe") == "exe";
  }

  /** A name without a dot is refused, even when it spells an extension. */
  lemma NameWithoutDotRefused()
    ensures !AllowedFile("png")
  {
    assert "png"[0] != '.' && "png"[1] != '.' && "png"[2] != '.';
  }

  /** Only the last extension counts. */
  lemma OnlyLastExtensionCounts()
    ensures !AllowedFile("photo.png.exe")
  {
    LastIndexOfAt("photo.png.exe", '.', 9);
    assert Extension("photo.png.exe") == "exe";
    assert Lower("exe") == "exe";
  }

  // ------------------------------------------------------------ timestamp

  /** A wall-clock reading, `datetime.now()`. */
  datatype DateTime = DateTime(year: nat, month: nat, day: nat, hour: nat, minute: nat, second: nat)

  predicate ValidDateTime(t: DateTime) {
    1000 <= t.year <= 9999 && 1 <= t.month <= 12 && 1 <= t.day <= 31
    && t.hour < 24 && t.minute < 60 && t.second < 60
  }

  predicate IsDigit(c: char) {
    '0' <= c <= '9'
  }

  function DigitChar(d: nat): (c: char)
    requires d < 10
    ensures IsDigit(c)
  {
    ('0' as int + d) as char
  }

  function DigitValue(c: char): (d: nat)
    requires IsDigit(c)
    ensures d < 10
  {
    c as int - '0' as int
  }

  /** The value of a string of decimal digits. */
  function Decimal(s: string): nat
    requires forall k :: 0 <= k < |s| ==> IsDigit(s[k])
  {
    if s == [] then 0 else Decimal(s[..|s| - 1]) * 10 + DigitValue(s[|s| - 1])
  }

  /** `n` in two digits with a leading zero, as `%m`, `%d`, `%H`, `%M`, `%S`. */
  function Pad2(n: nat): (s: string)
    requires n < 100
    ensures |s| == 2 && forall k :: 0 <= k < 2 ==> IsDigit(s[k])
  {
    [DigitChar(n / 10), DigitChar(n % 10)]
  }

  /** `n` in four digits with leading zeros, as `%Y`. */
  function Pad4(n: nat): (s: string)
    requires n < 10000
    ensures |s| == 4 && forall k :: 0 <= k < 4 ==> IsDigit(s[k])
  {
    Pad2(n / 100) + Pad2(n % 100)
  }

  lemma Pad2Decimal(n: nat)
    requires n < 100
    ensures Decimal(Pad2(n)) == n
  {
    var s := Pad2(n);
    assert s[..1] == [DigitChar(n / 10)];
    assert Decimal(s[..1]) == n / 10 by {
      assert s[..1][..0] == [];
    }
  }

  lemma Pad4Decimal(n: nat)
    requires n < 10000
    ensures Decimal(Pad4(n)) == n
  {
    var s := Pad4(n);
    var m := n % 100;
    assert s[..2] == Pad2(n / 100);
    assert s[..3][..2] == s[..2];
    assert s[..3][2] == DigitChar(m / 10);
    assert s[3] == DigitChar(m % 10);
    Pad2Decimal(n / 100);
    assert Decimal(s[..3]) == (n / 100) * 10 + m / 10;
    assert Decimal(s) == ((n / 100) * 10 + m / 10) * 10 + m % 10;
  }

  /** `strftime('%Y%m%d_%H%M%S_')`, the prefix that keeps uploads apart. */
  function TimestampPrefix(t: DateTime): (p: string)
    requires ValidDateTime(t)
    ensures |p| == 16 && p[8] == '_' && p[15] == '_'
    ensures forall k :: 0 <= k < 16 && k != 8 && k != 15 ==> IsDigit(p[k])
  {
    Pad4(t.year) + Pad2(t.month) + Pad2(t.day) + "_"
      + Pad2(t.hour) + Pad2(t.minute) + Pad2(t.second) + "_"
  }

  /** Reads a clock reading back from a timestamp prefix. */
  function ParseTimestampPrefix(p: string): Option<DateTime> {
    if |p| == 16 && p[8] == '_' && p[15] == '_'
       && (forall k :: 0 <= k < 16 && k != 8 && k != 15 ==> IsDigit(p[k]))
    then Some(DateTime(Decimal(p[0..4]), Decimal(p[4..6]), Decimal(p[6..8]),
                       Decimal(p[9..11]), Decimal(p[11..13]), Decimal(p[13..15])))
    else None
  }

  /** The prefix loses nothing: the clock reading can be read back from it. */
  lemma TimestampRoundTrip(t: DateTime)
    requires ValidDateTime(t)
    ensures ParseTimestampPrefix(TimestampPrefix(t)) == Some(t)
  {
    var p := TimestampPrefix(t);
    assert p[0..4] == Pad4(t.year);
    assert p[4..6] == Pad2(t.month);
    assert p[6..8] == Pad2(t.day);
    assert p[9..11] == Pad2(t.hour);
    assert p[11..13] == Pad2(t.minute);
    assert p[13..15] == Pad2(t.second);
    Pad4Decimal(t.year);
    Pad2Decimal(t.month);
    Pad2Decimal(t.day);
    Pad2Decimal(t.hour);
    Pad2Decimal(t.minute);
    Pad2Decimal(t.second);
  }

  // ------------------------------------------------------------ key and URL

  /** `timestamp + secure_filename(file.filename)`: the clock reading can be
      read back from the first 16 characters, and the rest is the name. */
  function StorageKey(now: DateTime, safeName: string): (key: string)
    requires ValidDateTime(now)
    ensures |key| == 16 + |safeName|
    ensures ParseTimestampPrefix(key[..16]) == Some(now)
    ensures key[16..] == safeName
  {
    TimestampRoundTrip(now);
    var key := TimestampPrefix(now) + safeName;
    assert key[..16] == TimestampPrefix(now);
    key
  }

  /** Two uploads get the same key only when they happen in the same second
      with the same sanitised name. */
  lemma StorageKeyInjective(t1: DateTime, name1: string, t2: DateTime, name2: string)
    requires ValidDateTime(t1) && ValidDateTime(t2)
    requires StorageKey(t1, name1) == StorageKey(t2, name2)
    ensures t1 == t2 && name1 == name2
  {
  }

  const UrlScheme: string := "https://"
  const UrlHost: string := ".s3.amazonaws.com/"

  /** The object key read back from a public URL of `bucket`. */
  function KeyOfUrl(bucket: string, url: string): Option<string> {
    var n := |UrlScheme + bucket + UrlHost|;
    if n <= |url| && url[..n] == UrlScheme + bucket + UrlHost then Some(url[n..]) else None
  }

  /** `f"https://{bucket_name}.s3.amazonaws.com/{object_name}"`: the URL
      names exactly the stored object, whose key can be read back from it. */
  function PublicUrl(bucket: string, key: string): (url: string)
    ensures KeyOfUrl(bucket, url) == Some(key)
  {
    var url := (UrlScheme + bucket + UrlHost) + key;
    assert url[..|UrlScheme + bucket + UrlHost|] == UrlScheme + bucket + UrlHost;
    assert url[|UrlScheme + bucket + UrlHost|..] == key;
    url
  }

  // ------------------------------------------------------------ the route

  /** The multipart part named `file`; its bytes and content type only pass
      through to storage. */
  datatype FileField = FileField(filename: string)

  /** What `upload_image` answers, and the key it handed to storage, if any. */
  datatype UploadReply = UploadReply(status: Status, url: Option<string>, storedKey: Option<string>)

  /** `upload_image`: `sanitize` stands for `secure_filename` and `transfer`
      for the S3 upload of a key, true exactly when `upload_fileobj` returns
      normally. A `ClientError` becomes `None` and so a 500; any other
      exception reaches the 500 handler; both are `transfer` false here. */
  function UploadImage(file: Option<FileField>, bucket: string, now: DateTime,
                       sanitize: string -> string, transfer: string -> bool): (r: UploadReply)
    requires ValidDateTime(now)
    ensures r.status == BadRequest <==>
      file.None? || file.value.filename == "" || !AllowedFile(file.value.filename)
    ensures r.status == BadRequest ==> r.storedKey.None? && r.url.None?
    ensures r.status != BadRequest ==>
      r.storedKey == Some(StorageKey(now, sanitize(file.value.filename)))
    ensures r.status == Ok <==> r.storedKey.Some? && transfer(r.storedKey.value)
    ensures r.status == Ok ==> r.url == Some(PublicUrl(bucket, r.storedKey.value))
    ensures r.status != Ok ==> r.url.None?
    ensures r.status in {Ok, BadRequest, ServerError}
  {
    if file.None? then UploadReply(BadRequest, None, None)
    else if file.value.filename == "" then UploadReply(BadRequest, None, None)
    else if AllowedFile(file.value.filename) then
      var key := StorageKey(now, sanitize(file.value.filename));
      if transfer(key) then UploadReply(Ok, Some(PublicUrl(bucket, key)), Some(key))
      else UploadReply(ServerError, None, Some(key))
    else UploadReply(BadRequest, None, None)
  }

  /** An upload of a refused file never reaches storage, whatever storage
      would have done. */
  lemma RefusedUploadIgnoresStorage(file: Option<FileField>, bucket: string, now: DateTime,
                                    sanitize: string -> string, transfer1: string -> bool, transfer2: string -> bool)
    requires ValidDateTime(now)
    requires file.Some? && !AllowedFile(file.value.filename)
    ensures UploadImage(file, bucket, now, sanitize, transfer1) == UploadImage(file, bucket, now, sanitize, transfer2)
    ensures UploadImage(file, bucket, now, sanitize, transfer1).status == BadRequest
  {
  }

  /** Two accepted uploads in different seconds are stored under different
      keys, even with the same file name. */
  lemma UploadsInDifferentSecondsDoNotCollide(f: FileField, bucket: string, t1: DateTime, t2: DateTime,
                                              sanitize: string -> string, transfer: string -> bool)
    requires ValidDateTime(t1) && ValidDateTime(t2) && t1 != t2
    requires f.filename != "" && AllowedFile(f.filename)
    ensures UploadImage(Some(f), bucket, t1, sanitize, transfer).storedKey
         != UploadImage(Some(f), bucket, t2, sanitize, transfer).storedKey
  {
    if StorageKey(t1, sanitize(f.filename)) == StorageKey(t2, sanitize(f.filename)) {
      StorageKeyInjective(t1, sanitize(f.filename), t2, sanitize(f.filename));
    }
  }
}
