/** The pure string helpers of the PDF handler: the file name shown for a path,
    the fixed-width reading of a PDF date string (section 7.9.4 of ISO 32000-1,
    `D:YYYYMMDDHHmmSS...`), the default-allow permission list and the
    "value or placeholder" fallbacks of the document details. */
module PdfInfo {
  import opened Prelude

  /** A value of the document information dictionary as pdf.js hands it over. */
  datatype InfoValue = Text(text: string) | Flag(flag: bool) | Number(number: int)

  /** The `info` dictionary of `getMetadata()`. */
  type Info = map<string, InfoValue>

  /** JavaScript truthiness of an information value. */
  predicate Truthy(v: InfoValue)
  {
    match v
    case Text(s) => s != ""
    case Flag(b) => b
    case Number(n) => n != 0
  }

  /** Display strings used when a value is missing. */
  const UnknownLabel: string := "알 수 없음"
  const FormatErrorLabel: string := "형식 오류"
  const NoPermissionInfoLabel: string := "제한 정보 없음"

  // ---------------------------------------------------------------------------
  // File name

  /** The last piece of `s.split([sep])`: everything after the last `sep`,
      or the whole string when there is none. */
  function AfterLast(s: string, sep: char): (r: string)
    ensures sep !in r
    ensures |r| <= |s| && r == s[|s| - |r|..]
    ensures |r| < |s| ==> s[|s| - |r| - 1] == sep
    decreases |s|
  {
    if s == [] || s[|s| - 1] == sep then []
    else
      var init := AfterLast(s[..|s| - 1], sep);
      assert s[..|s| - 1][|s| - 1 - |init|..] == s[|s| - 1 - |init|..|s| - 1];
      init + [s[|s| - 1]]
  }

  /** A suffix of a suffix of `s` is a suffix of `s`, has no character the
      outer suffix lacks, and is preceded in `s` by what precedes it in the
      outer suffix. */
  lemma SuffixOfSuffix(s: string, a: string, r: string)
    requires |a| <= |s| && a == s[|s| - |a|..]
    requires |r| <= |a| && r == a[|a| - |r|..]
    ensures r == s[|s| - |r|..]
    ensures forall c :: c in r ==> c in a
    ensures |r| < |a| ==> s[|s| - |r| - 1] == a[|a| - |r| - 1]
  {
    forall c | c in r ensures c in a {
      var i :| 0 <= i < |r| && r[i] == c;
      assert a[|a| - |r| + i] == c;
    }
  }

  /** The file name of a path: split on backslash, keep the last piece, then
      split that on slash and keep the last piece. The result is the longest
      suffix of the path free of both separators. */
  function FileName(path: string): (r: string)
    ensures '\\' !in r && '/' !in r
    ensures |r| <= |path| && r == path[|path| - |r|..]
    ensures |r| < |path| ==> path[|path| - |r| - 1] == '\\' || path[|path| - |r| - 1] == '/'
  {
    var a := AfterLast(path, '\\');
    var r := AfterLast(a, '/');
    SuffixOfSuffix(path, a, r);
    r
  }

  /** A name joined to any directory by either separator comes back out. */
  lemma FileNameOfJoin(dir: string, sep: char, name: string)
    requires sep == '\\' || sep == '/'
    requires '\\' !in name && '/' !in name
    ensures FileName(dir + [sep] + name) == name
  {
    var path := dir + [sep] + name;
    var r := FileName(path);
    assert path[|path| - |name|..] == name;
    assert path[|path| - |name| - 1] == sep;
  }

  // ---------------------------------------------------------------------------
  // PDF dates

  predicate StartsWith(s: string, prefix: string)
  {
    |prefix| <= |s| && s[..|prefix|] == prefix
  }

  /** JavaScript `String.prototype.substring` for non-negative indices: both
      ends are clamped to the length and swapped when out of order. */
  function Substring(s: string, start: nat, end: nat): string
  {
    var lo := Min(Min(start, end), |s|);
    var hi := Min(Max(start, end), |s|);
    s[lo..hi]
  }

  /** Adjacent substrings join up: cutting at `a <= b <= c` and gluing the two
      pieces back gives the substring from `a` to `c`. */
  lemma SubstringsJoin(s: string, a: nat, b: nat, c: nat)
    requires a <= b <= c
    ensures Substring(s, a, b) + Substring(s, b, c) == Substring(s, a, c)
  {
    var x, y, z := Min(a, |s|), Min(b, |s|), Min(c, |s|);
    assert s[x..y] + s[y..z] == s[x..z];
  }

  /** What the date formatter produces: the "unknown" placeholder, the
      "format error" placeholder, or the six calendar fields it hands to the
      `Date` constructor (the locale rendering of that date is not modelled). */
  datatype PdfDate =
    | Unknown
    | FormatError
    | Fields(year: string, month: string, day: string, hour: string, minute: string, second: string)

  /** `formatPdfDate`: a falsy value or a string without the `D:` tag is
      unknown; a truthy non-string has no `startsWith`, so the thrown error is
      caught as a format error; otherwise the 14 characters after the tag are
      cut into fields of width 4, 2, 2, 2, 2, 2 (shorter when the string is). */
  function FormatPdfDate(v: InfoValue): (r: PdfDate)
    ensures r.Fields? <==> v.Text? && StartsWith(v.text, "D:")
    ensures r.FormatError? <==> Truthy(v) && !v.Text?
    ensures r.Fields? ==>
      r.year + r.month + r.day + r.hour + r.minute + r.second == v.text[2..Min(16, |v.text|)]
    ensures r.Fields? ==>
      && |r.year| == Min(4, |v.text| - 2)
      && |r.month| == Max(0, Min(2, |v.text| - 6))
      && |r.day| == Max(0, Min(2, |v.text| - 8))
      && |r.hour| == Max(0, Min(2, |v.text| - 10))
      && |r.minute| == Max(0, Min(2, |v.text| - 12))
      && |r.second| == Max(0, Min(2, |v.text| - 14))
  {
    if !Truthy(v) then Unknown
    else if !v.Text? then FormatError
    else if !StartsWith(v.text, "D:") then Unknown
    else
      var d := Substring(v.text, 2, 16);
      var r := Fields(Substring(d, 0, 4), Substring(d, 4, 6), Substring(d, 6, 8),
                      Substring(d, 8, 10), Substring(d, 10, 12), Substring(d, 12, 14));
      assert r.year + r.month + r.day + r.hour + r.minute + r.second == d by {
        SubstringsJoin(d, 0, 4, 6);
        SubstringsJoin(d, 0, 6, 8);
        SubstringsJoin(d, 0, 8, 10);
        SubstringsJoin(d, 0, 10, 12);
        SubstringsJoin(d, 0, 12, 14);
        assert Substring(d, 0, 14) == d;
      }
      r
  }

  /** Writing the six fields after the `D:` tag (followed by any time-zone
      suffix) and reading them back gives the same fields. */
  lemma {:induction false} FormatPdfDateRoundTrip(
    year: string, month: string, day: string, hour: string, minute: string, second: string, zone: string)
    requires |year| == 4 && |month| == 2 && |day| == 2
    requires |hour| == 2 && |minute| == 2 && |second| == 2
    ensures FormatPdfDate(Text("D:" + year + month + day + hour + minute + second + zone))
            == Fields(year, month, day, hour, minute, second)
  {
    var s := "D:" + year + month + day + hour + minute + second + zone;
    assert StartsWith(s, "D:") by {
      assert s[..2] == "D:";
    }
    var d := s[2..16];
    assert d == year + month + day + hour + minute + second;
    assert Substring(s, 2, 16) == d;
    assert d[0..4] == year;
    assert d[4..6] == month;
    assert d[6..8] == day;
    assert d[8..10] == hour;
    assert d[10..12] == minute;
    assert d[12..14] == second;
  }

  /** The value shown for a document date: `info.X ? formatPdfDate(info.X) : unknown`. */
  function DateField(info: Info, key: string): (r: PdfDate)
    ensures key !in info ==> r == Unknown
    ensures key in info ==> r == FormatPdfDate(info[key])
  {
    if key in info && Truthy(info[key]) then FormatPdfDate(info[key]) else Unknown
  }

  // ---------------------------------------------------------------------------
  // Permissions

  datatype Permission =
    | Printing | ModifyContents | CopyContents | ModifyAnnotations
    | FillIn | ExtractForAccessibility | Assemble | PrintHighQuality

  /** How many permissions are listed. */
  const PermissionCount: nat := 8

  /** The permission at position `k` of the fixed listing order. */
  function PermissionAt(k: nat): Permission
    requires k < PermissionCount
  {
    if k == 0 then Printing
    else if k == 1 then ModifyContents
    else if k == 2 then CopyContents
    else if k == 3 then ModifyAnnotations
    else if k == 4 then FillIn
    else if k == 5 then ExtractForAccessibility
    else if k == 6 then Assemble
    else PrintHighQuality
  }

  /** The information-dictionary key read for a permission. */
  function Key(p: Permission): string
  {
    match p
    case Printing => "Printing"
    case ModifyContents => "ModifyContents"
    case CopyContents => "CopyContents"
    case ModifyAnnotations => "ModifyAnnotations"
    case FillIn => "FillIn"
    case ExtractForAccessibility => "ExtractForAccessibility"
    case Assemble => "Assemble"
    case PrintHighQuality => "PrintHighQuality"
  }

  /** The label listed for a granted permission. */
  function Label(p: Permission): string
  {
    match p
    case Printing => "인쇄 가능"
    case ModifyContents => "내용 수정 가능"
    case CopyContents => "내용 복사 가능"
    case ModifyAnnotations => "주석 수정 가능"
    case FillIn => "양식 작성 가능"
    case ExtractForAccessibility => "접근성 추출 가능"
    case Assemble => "문서 조립 가능"
    case PrintHighQuality => "고품질 인쇄 가능"
  }

  /** A permission is withheld only when its key holds exactly `false`
      (`info.X !== false` grants it); a missing dictionary withholds nothing. */
  predicate Denied(info: Option<Info>, p: Permission)
  {
    info.Some? && Key(p) in info.value && info.value[Key(p)] == Flag(false)
  }

  /** The positions whose permission the dictionary withholds. */
  function Withheld(info: Option<Info>): (w: set<nat>)
    ensures forall k: nat {:trigger k in w} :: k in w <==> k < PermissionCount && Denied(info, PermissionAt(k))
  {
    set k: nat | k < PermissionCount && Denied(info, PermissionAt(k))
  }

  /** The positions from `i` on that are not withheld, in ascending order. */
  function GrantedFrom(withheld: set<nat>, i: nat): (r: seq<nat>)
    requires i <= PermissionCount
    ensures forall k: nat {:trigger k in r} :: k in r <==> i <= k < PermissionCount && k !in withheld
    ensures forall a, b :: 0 <= a < b < |r| ==> r[a] < r[b]
    decreases PermissionCount - i
  {
    if i == PermissionCount then []
    else
      var rest := GrantedFrom(withheld, i + 1);
      assert forall b :: 0 <= b < |rest| ==> rest[b] in rest;
      if i in withheld then rest else [i] + rest
  }

  /** The positions of the permissions the dictionary grants, ascending
      (so in the fixed order, none twice). */
  function Granted(info: Option<Info>): (r: seq<nat>)
    ensures forall k: nat {:trigger k in r} :: k in r <==> k < PermissionCount && !Denied(info, PermissionAt(k))
    ensures forall a, b :: 0 <= a < b < |r| ==> r[a] < r[b]
  {
    GrantedFrom(Withheld(info), 0)
  }

  /** `getPermissionsInfo`: the labels of the granted permissions in order,
      or the single "no restriction information" label when none is granted.
      The list is never empty. */
  function PermissionsInfo(info: Option<Info>): (r: seq<string>)
    ensures |r| >= 1
    ensures Granted(info) == [] ==> r == [NoPermissionInfoLabel]
    ensures Granted(info) != [] ==>
      && |r| == |Granted(info)|
      && forall j :: 0 <= j < |r| ==> Granted(info)[j] < PermissionCount && r[j] == Label(PermissionAt(Granted(info)[j]))
  {
    var g := Granted(info);
    if g == [] then
      [NoPermissionInfoLabel]
    else
      assert forall j :: 0 <= j < |g| ==> g[j] in g;
      seq(|g|, j requires 0 <= j < |g| => Label(PermissionAt(g[j])))
  }

  /** When every permission is explicitly denied, only the "no restriction
      information" label is listed. */
  lemma AllDenied(info: Option<Info>)
    requires forall k: nat :: k < PermissionCount ==> Denied(info, PermissionAt(k))
    ensures PermissionsInfo(info) == [NoPermissionInfoLabel]
  {
  }

  /** Nothing withheld from position `i` on: every position from `i` on is
      listed, in order. */
  lemma {:induction false} NothingWithheld(withheld: set<nat>, i: nat)
    requires i <= PermissionCount
    requires forall k: nat :: i <= k < PermissionCount ==> k !in withheld
    ensures |GrantedFrom(withheld, i)| == PermissionCount - i
    ensures forall j :: 0 <= j < PermissionCount - i ==> GrantedFrom(withheld, i)[j] == i + j
    decreases PermissionCount - i
  {
    if i < PermissionCount {
      NothingWithheld(withheld, i + 1);
      var r := GrantedFrom(withheld, i);
      var rest := GrantedFrom(withheld, i + 1);
      assert r == [i] + rest;
      forall j | 0 <= j < PermissionCount - i
        ensures r[j] == i + j
      {
        if j > 0 {
          assert r[j] == rest[j - 1];
        }
      }
    }
  }

  /** When no permission is denied (in particular when there is no
      metadata), no position is withheld. */
  lemma GrantedAll(info: Option<Info>)
    requires forall k: nat :: k < PermissionCount ==> !Denied(info, PermissionAt(k))
    ensures Withheld(info) == {}
  {
  }

  /** Default allow: when no permission is denied (in particular when there
      is no metadata), all eight labels are listed in the fixed order. */
  lemma DefaultAllow(info: Option<Info>)
    requires forall k: nat :: k < PermissionCount ==> !Denied(info, PermissionAt(k))
    ensures |PermissionsInfo(info)| == PermissionCount
    ensures forall j :: 0 <= j < PermissionCount ==> PermissionsInfo(info)[j] == Label(PermissionAt(j))
  {
    GrantedAll(info);
    NothingWithheld({}, 0);
    var g := Granted(info);
    assert g == GrantedFrom({}, 0);
    var r := PermissionsInfo(info);
    assert |g| == PermissionCount;
    assert g != [];
    forall j | 0 <= j < PermissionCount
      ensures r[j] == Label(PermissionAt(j))
    {
      assert g[j] == j;
    }
  }

  // ---------------------------------------------------------------------------
  // Document details

  /** `info.X || placeholder`: the stored value when it is truthy, the
      placeholder text otherwise. */
  function OrPlaceholder(info: Info, key: string, placeholder: string): (r: InfoValue)
    requires placeholder != ""
    ensures Truthy(r)
    ensures key in info && Truthy(info[key]) ==> r == info[key]
    ensures !(key in info && Truthy(info[key])) ==> r == Text(placeholder)
  {
    if key in info && Truthy(info[key]) then info[key] else Text(placeholder)
  }

  /** The metadata part of the details dialog. */
  datatype Details = Details(
    title: InfoValue, author: InfoValue, subject: InfoValue,
    creator: InfoValue, producer: InfoValue, keywords: InfoValue,
    pdfCreationDate: PdfDate, pdfModDate: PdfDate,
    encrypted: bool, permissions: seq<string>, pdfFormatVersion: InfoValue)

  /** `this.metadata?.info || {}`: the dictionary the details read from. */
  function Dictionary(info: Option<Info>): Info
  {
    if info.Some? then info.value else map[]
  }

  /** A details field shows the value stored under `key` when it is truthy,
      and the placeholder text otherwise. */
  predicate ShowsOr(field: InfoValue, d: Info, key: string, placeholder: string)
  {
    && (key in d && Truthy(d[key]) ==> field == d[key])
    && (!(key in d && Truthy(d[key])) ==> field == Text(placeholder))
  }

  /** A details date is unknown when the key is missing and is the
      formatted stored value otherwise. */
  predicate ShowsDate(field: PdfDate, d: Info, key: string)
  {
    && (key !in d ==> field == Unknown)
    && (key in d ==> field == FormatPdfDate(d[key]))
  }

  /** The metadata fields of `getDetailedPdfInfo`: every text field is the
      stored value or its placeholder (so always truthy), each date is
      formatted or unknown, `encrypted` is whether `IsAcroFormPresent` is
      truthy, and the permissions are the permission list, never empty. */
  function DocumentDetails(info: Option<Info>): (r: Details)
    ensures Truthy(r.title) && Truthy(r.author) && Truthy(r.subject)
    ensures Truthy(r.creator) && Truthy(r.producer) && Truthy(r.keywords)
    ensures Truthy(r.pdfFormatVersion)
    ensures var d := Dictionary(info);
      && ShowsOr(r.title, d, "Title", "제목 없음")
      && ShowsOr(r.author, d, "Author", "작성자 없음")
      && ShowsOr(r.subject, d, "Subject", "주제 없음")
      && ShowsOr(r.creator, d, "Creator", "생성 프로그램 없음")
      && ShowsOr(r.producer, d, "Producer", "생성자 없음")
      && ShowsOr(r.keywords, d, "Keywords", "키워드 없음")
      && ShowsOr(r.pdfFormatVersion, d, "PDFFormatVersion", UnknownLabel)
      && ShowsDate(r.pdfCreationDate, d, "CreationDate")
      && ShowsDate(r.pdfModDate, d, "ModDate")
      && (r.encrypted <==> "IsAcroFormPresent" in d && Truthy(d["IsAcroFormPresent"]))
    ensures r.permissions == PermissionsInfo(info) && |r.permissions| >= 1
    ensures info.None? ==>
      && r.title == Text("제목 없음") && r.author == Text("작성자 없음")
      && r.pdfCreationDate == Unknown && r.pdfModDate == Unknown && !r.encrypted
  {
    var d := Dictionary(info);
    Details(
      OrPlaceholder(d, "Title", "제목 없음"),
      OrPlaceholder(d, "Author", "작성자 없음"),
      OrPlaceholder(d, "Subject", "주제 없음"),
      OrPlaceholder(d, "Creator", "생성 프로그램 없음"),
      OrPlaceholder(d, "Producer", "생성자 없음"),
      OrPlaceholder(d, "Keywords", "키워드 없음"),
      DateField(d, "CreationDate"),
      DateField(d, "ModDate"),
      "IsAcroFormPresent" in d && Truthy(d["IsAcroFormPresent"]),
      PermissionsInfo(info),
      OrPlaceholder(d, "PDFFormatVersion", UnknownLabel))
  }
}
