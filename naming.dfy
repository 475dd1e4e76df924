/** How the upload handler names a stored file (routes/uploadRoute.js, l.51-55):
    the original name with every character outside [A-Za-z0-9.-] replaced by '_',
    a dash, and a 14-character timestamp token cut from `new Date().toISOString()`. */
module Naming {
  import opened Decimal
  import opened Wrappers

  // ---------------------------------------------------------------------------
  // The sanitiser: `originalname.replace(/[^a-zA-Z0-9.-]/g, '_')`

  /** The characters the sanitiser keeps: [A-Za-z0-9.-]. */
  predicate IsSafeChar(c: char) {
    ('A' <= c <= 'Z') || ('a' <= c <= 'z') || ('0' <= c <= '9') || c == '.' || c == '-'
  }

  /** The characters a sanitised name can hold: the kept ones and the replacement '_'. */
  predicate IsNameChar(c: char) {
    IsSafeChar(c) || c == '_'
  }

  function SanitizeChar(c: char): char {
    if IsSafeChar(c) then c else '_'
  }

  function Sanitize(s: string): (r: string)
    ensures |r| == |s|
  {
    if s == [] then [] else [SanitizeChar(s[0])] + Sanitize(s[1..])
  }

  /** The regular expression acts character by character: a safe character is kept, any other becomes '_'. */
  lemma {:induction false} SanitizeAt(s: string, i: nat)
    requires i < |s|
    ensures IsSafeChar(s[i]) ==> Sanitize(s)[i] == s[i]
    ensures !IsSafeChar(s[i]) ==> Sanitize(s)[i] == '_'
  {
    if i > 0 {
      SanitizeAt(s[1..], i - 1);
    }
  }

  /** A sanitised name holds only characters from [A-Za-z0-9._-]. */
  lemma SanitizeOnlyNameChars(s: string)
    ensures forall i :: 0 <= i < |Sanitize(s)| ==> IsNameChar(Sanitize(s)[i])
  {
    forall i | 0 <= i < |Sanitize(s)| ensures IsNameChar(Sanitize(s)[i]) {
      SanitizeAt(s, i);
    }
  }

  /** A name made only of safe characters passes through unchanged. */
  lemma SanitizeKeepsSafeNames(s: string)
    requires forall i :: 0 <= i < |s| ==> IsSafeChar(s[i])
    ensures Sanitize(s) == s
  {
    forall i | 0 <= i < |s| ensures Sanitize(s)[i] == s[i] {
      SanitizeAt(s, i);
    }
  }

  /** Sanitising twice is sanitising once. */
  lemma SanitizeIdempotent(s: string)
    ensures Sanitize(Sanitize(s)) == Sanitize(s)
  {
    var t := Sanitize(s);
    forall i | 0 <= i < |t| ensures Sanitize(t)[i] == t[i] {
      SanitizeAt(s, i);
      SanitizeAt(t, i);
    }
  }

  // ---------------------------------------------------------------------------
  // The ISO string of a Date, in the format of section 21.4.1.32 of ECMA-262
  // (Date Time String Format): YYYY-MM-DDTHH:mm:ss.sssZ, with the year written
  // as '+' or '-' and six digits when it lies outside 0..9999.

  datatype DateTime = DateTime(year: int, month: nat, day: nat, hour: nat,
                               minute: nat, second: nat, millisecond: nat)

  /** The field ranges of a UTC date that `toISOString` can print. */
  predicate ValidDateTime(d: DateTime) {
    && -1000000 < d.year < 1000000
    && 1 <= d.month <= 12 && 1 <= d.day <= 31
    && d.hour < 24 && d.minute < 60 && d.second < 60 && d.millisecond < 1000
  }

  /** The year field: four digits for the years 0..9999, otherwise a sign and six digits. */
  function YearText(year: int): (r: string)
    ensures 0 <= year <= 9999 ==> |r| == 4 && AllDigits(r) && Value(r) == year
    ensures !(0 <= year <= 9999) ==> |r| == 7 && r[0] == (if year < 0 then '-' else '+')
    ensures -1000000 < year < 1000000 && !(0 <= year <= 9999) ==> AllDigits(r[1..]) && Value(r[1..]) == if year < 0 then -year else year
  {
    if 0 <= year <= 9999 then
      assert Pow10(4) == 10000;
      PaddedValue(year, 4);
      Padded(year, 4)
    else
      var digits := if year < 0 then -year else year;
      assert Pow10(6) == 1000000;
      PaddedValueWhenFits(digits, 6);
      var r := (if year < 0 then "-" else "+") + Padded(digits, 6);
      assert r[1..] == Padded(digits, 6);
      r
  }

  /** `toISOString()`: 24 characters for the years 0..9999 (27 with an extended year),
      the 'T' between date and time, and the closing 'Z' of UTC. */
  function IsoString(d: DateTime): (r: string)
    ensures |r| == (if 0 <= d.year <= 9999 then 24 else 27)
    ensures r[|r| - 14] == 'T' && r[|r| - 1] == 'Z'
  {
    var y, rest := YearText(d.year), AfterYearText(d);
    assert |rest| == 20 && rest[6] == 'T' && rest[19] == 'Z';
    var r := y + rest;
    assert r[|r| - 14] == rest[6] && r[|r| - 1] == rest[19];
    r
  }

  /** The part after the year: -MM-DDTHH:mm:ss.sssZ. */
  function AfterYearText(d: DateTime): string {
    "-" + Padded(d.month, 2) + "-" + Padded(d.day, 2)
      + "T" + Padded(d.hour, 2) + ":" + Padded(d.minute, 2) + ":" + Padded(d.second, 2)
      + "." + Padded(d.millisecond, 3) + "Z"
  }

  // ---------------------------------------------------------------------------
  // The token: `toISOString().replace(/[-T:.Z]/g, '').slice(0, 14)`

  /** The characters the token's regular expression deletes. */
  predicate IsDelimiter(c: char) {
    c == '-' || c == 'T' || c == ':' || c == '.' || c == 'Z'
  }

  function StripDelimiters(s: string): (r: string)
    ensures |r| <= |s|
    ensures forall i :: 0 <= i < |r| ==> !IsDelimiter(r[i])
  {
    if s == [] then []
    else (if IsDelimiter(s[0]) then [] else [s[0]]) + StripDelimiters(s[1..])
  }

  function TimestampToken(iso: string): (t: string)
    ensures |t| <= 14
    ensures forall i :: 0 <= i < |t| ==> !IsDelimiter(t[i])
  {
    var r := StripDelimiters(iso);
    if |r| <= 14 then r else r[..14]
  }

  lemma {:induction false} StripAppend(a: string, b: string)
    ensures StripDelimiters(a + b) == StripDelimiters(a) + StripDelimiters(b)
  {
    if a != [] {
      assert (a + b)[0] == a[0] && (a + b)[1..] == a[1..] + b;
      StripAppend(a[1..], b);
    } else {
      assert a + b == b;
    }
  }

  /** Deleting delimiters leaves a string without delimiters as it is. */
  lemma {:induction false} StripKeepsPlainText(s: string)
    requires forall i :: 0 <= i < |s| ==> !IsDelimiter(s[i])
    ensures StripDelimiters(s) == s
  {
    if s != [] {
      StripKeepsPlainText(s[1..]);
    }
  }

  lemma StripDigits(s: string)
    requires AllDigits(s)
    ensures StripDelimiters(s) == s
  {
    StripKeepsPlainText(s);
  }

  /** The fourteen digits YYYYMMDDHHmmss of a date in the years 0..9999. */
  function CompactDate(d: DateTime): string
    requires 0 <= d.year
  {
    Padded(d.year, 4) + Padded(d.month, 2) + Padded(d.day, 2)
      + Padded(d.hour, 2) + Padded(d.minute, 2) + Padded(d.second, 2)
  }

  /** Deleting the delimiters from a prefix, a delimiter and a field of digits. */
  lemma StripField(prefix: string, c: char, field: string)
    requires IsDelimiter(c) && AllDigits(field)
    ensures StripDelimiters(prefix + [c] + field) == StripDelimiters(prefix) + field
  {
    StripAppend(prefix + [c], field);
    StripAppend(prefix, [c]);
    StripDigits(field);
  }

  /** Deleting the delimiters after the year leaves the 13 digits MMDDHHmmsssss. */
  lemma StripAfterYear(d: DateTime)
    ensures StripDelimiters(AfterYearText(d))
         == Padded(d.month, 2) + Padded(d.day, 2) + Padded(d.hour, 2) + Padded(d.minute, 2)
            + Padded(d.second, 2) + Padded(d.millisecond, 3)
  {
    var mo, dd := Padded(d.month, 2), Padded(d.day, 2);
    var h, mi, s, ms := Padded(d.hour, 2), Padded(d.minute, 2), Padded(d.second, 2), Padded(d.millisecond, 3);
    var p2 := "-" + mo;         StripAppend("-", mo); StripDigits(mo);
    var p4 := p2 + "-" + dd;    StripField(p2, '-', dd);
    var p6 := p4 + "T" + h;     StripField(p4, 'T', h);
    var p8 := p6 + ":" + mi;    StripField(p6, ':', mi);
    var p10 := p8 + ":" + s;    StripField(p8, ':', s);
    var p12 := p10 + "." + ms;  StripField(p10, '.', ms);
    StripAppend(p12, "Z");
    assert p12 + "Z" == AfterYearText(d);
  }

  /** For the years 0..9999 the token is exactly YYYYMMDDHHmmss: the milliseconds are cut off. */
  lemma StripIsoString(d: DateTime)
    requires 0 <= d.year <= 9999
    ensures StripDelimiters(IsoString(d)) == CompactDate(d) + Padded(d.millisecond, 3)
  {
    var y, rest := Padded(d.year, 4), AfterYearText(d);
    assert IsoString(d) == y + rest;
    StripAppend(y, rest);
    StripDigits(y);
    StripAfterYear(d);
  }

  lemma TokenOfIsoString(d: DateTime)
    requires ValidDateTime(d) && 0 <= d.year <= 9999
    ensures TimestampToken(IsoString(d)) == CompactDate(d)
    ensures |TimestampToken(IsoString(d))| == 14 && AllDigits(TimestampToken(IsoString(d)))
  {
    StripIsoString(d);
    var c, ms := CompactDate(d), Padded(d.millisecond, 3);
    assert (c + ms)[..14] == c;
  }

  /** For a year past 9999 the '+' of the extended year is not among the deleted
      characters, so it stays at the head of the token. */
  lemma ExtendedYearTokenKeepsSign(d: DateTime)
    requires ValidDateTime(d) && d.year > 9999
    ensures |TimestampToken(IsoString(d))| == 14 && TimestampToken(IsoString(d))[0] == '+'
  {
    var y := Padded(d.year, 6);
    StripAppend("+" + y, AfterYearText(d));
    StripAppend("+", y);
    StripDigits(y);
    StripAfterYear(d);
  }

  // ---------------------------------------------------------------------------
  // The stored name: `${sanitizedOriginalname}-${timestamp}`

  /** The stored name is 1 + |token| characters longer than the original name, and a
      token made of name characters gives a name made only of [A-Za-z0-9._-]. */
  function StoredName(originalName: string, token: string): (r: string)
    ensures |r| == |originalName| + 1 + |token|
    ensures (forall i :: 0 <= i < |token| ==> IsNameChar(token[i])) ==> forall i :: 0 <= i < |r| ==> IsNameChar(r[i])
  {
    SanitizeOnlyNameChars(originalName);
    var r := Sanitize(originalName) + "-" + token;
    assert forall i :: |originalName| < i < |r| ==> r[i] == token[i - |originalName| - 1];
    assert forall i :: 0 <= i < |originalName| ==> r[i] == Sanitize(originalName)[i];
    r
  }

  /** The stored name for a file uploaded at `now`. */
  function StoredNameAt(originalName: string, now: DateTime): string {
    StoredName(originalName, TimestampToken(IsoString(now)))
  }

  /** A stored name is the sanitised original name, a '-', and the 14 digits of the
      upload second; it is made only of characters from [A-Za-z0-9._-]. */
  lemma StoredNameShape(originalName: string, now: DateTime)
    requires ValidDateTime(now) && 0 <= now.year <= 9999
    ensures var n := StoredNameAt(originalName, now);
      && |n| == |originalName| + 15
      && n[..|originalName|] == Sanitize(originalName)
      && n[|originalName|] == '-'
      && n[|originalName| + 1..] == CompactDate(now)
      && forall i :: 0 <= i < |n| ==> IsNameChar(n[i])
  {
    TokenOfIsoString(now);
    SanitizeOnlyNameChars(originalName);
    var n := StoredNameAt(originalName, now);
    var k := |originalName|;
    forall i | 0 <= i < |n| ensures IsNameChar(n[i]) {
      if i > k {
        assert n[i] == CompactDate(now)[i - k - 1];
      }
    }
  }

  /** The inverse of `StoredName` for 14-character tokens: the last 14 characters are
      the token and the '-' before them ends the sanitised name. */
  function SplitStoredName(name: string): (r: Option<(string, string)>)
    ensures r.Some? ==> r.value.0 + "-" + r.value.1 == name && |r.value.1| == 14
  {
    if |name| >= 15 && name[|name| - 15] == '-'
    then Some((name[..|name| - 15], name[|name| - 14..]))
    else None
  }

  lemma SplitStoredNameInverts(originalName: string, token: string)
    requires |token| == 14
    ensures SplitStoredName(StoredName(originalName, token)) == Some((Sanitize(originalName), token))
  {
    var n := StoredName(originalName, token);
    assert n[..|n| - 15] == Sanitize(originalName);
    assert n[|n| - 14..] == token;
  }

  /** Two uploads get the same stored name exactly when their names sanitise alike and
      they fall in the same second: the source's only safeguard against collisions. */
  lemma StoredNameCollision(a: string, ta: string, b: string, tb: string)
    requires |ta| == 14 && |tb| == 14
    ensures StoredName(a, ta) == StoredName(b, tb) <==> Sanitize(a) == Sanitize(b) && ta == tb
  {
    SplitStoredNameInverts(a, ta);
    SplitStoredNameInverts(b, tb);
  }

  /** A stored name is one path component: no '/', and never "." or "..", so
      joining it to the upload directory stays inside that directory. */
  lemma StoredNameIsOneComponent(originalName: string, token: string)
    requires forall i :: 0 <= i < |token| ==> token[i] != '/'
    ensures var n := StoredName(originalName, token);
      && (forall i :: 0 <= i < |n| ==> n[i] != '/')
      && n != "." && n != ".."
  {
    SanitizeOnlyNameChars(originalName);
    var n := StoredName(originalName, token);
    var k := |originalName|;
    assert n[k] == '-';
    forall i | 0 <= i < |n| ensures n[i] != '/' {
      if i < k {
        assert n[i] == Sanitize(originalName)[i];
      } else if i > k {
        assert n[i] == token[i - k - 1];
      }
    }
  }
}
