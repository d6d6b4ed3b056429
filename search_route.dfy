/**
 * app/api/search/route.ts: a case-insensitive substring search over students,
 * classes and attendance rows, newest first, cut to a caller-chosen limit, each
 * hit labelled with the page it links to.
 */
module SearchRoute {
  import opened Wrappers
  import opened Text
  import opened Seqs
  import opened Types
  import opened Tables

  // ---------------------------------------------------------------------
  // `parseInt(s)` with no radix, on integers.

  /** The value of `c` as a digit in base 10 or 16. */
  function DigitValue(c: char, radix: nat): Option<nat> {
    if '0' <= c <= '9' then Some(c as int - '0' as int)
    else if radix == 16 && 'a' <= c <= 'f' then Some(c as int - 'a' as int + 10)
    else if radix == 16 && 'A' <= c <= 'F' then Some(c as int - 'A' as int + 10)
    else None
  }

  predicate AllDigits(s: string, radix: nat) {
    forall k :: 0 <= k < |s| ==> DigitValue(s[k], radix).Some?
  }

  /** The length of the run of digits at the front of `s`. */
  function DigitRun(s: string, radix: nat): (n: nat)
    ensures n <= |s| && AllDigits(s[..n], radix)
    ensures n < |s| ==> DigitValue(s[n], radix).None?
  {
    if s == [] || DigitValue(s[0], radix).None? then 0
    else
      var n := DigitRun(s[1..], radix);
      assert s[..n + 1] == [s[0]] + s[1..][..n];
      n + 1
  }

  /** The number a run of digits spells, most significant first. */
  function DigitsValue(ds: string, radix: nat): nat
    requires AllDigits(ds, radix)
  {
    if ds == [] then 0
    else DigitsValue(ds[..|ds| - 1], radix) * radix + DigitValue(ds[|ds| - 1], radix).value
  }

  /** The longest run of digits at the front, read in `radix`; `None` when there is none. */
  function ParseDigits(v: string, radix: nat): Option<nat> {
    var n := DigitRun(v, radix);
    if n == 0 then None else Some(DigitsValue(v[..n], radix))
  }

  /** A `0x` or `0X` prefix switches to base 16. */
  function ParseUnsigned(u: string): Option<nat> {
    if |u| >= 2 && u[0] == '0' && (u[1] == 'x' || u[1] == 'X') then ParseDigits(u[2..], 16)
    else ParseDigits(u, 10)
  }

  /** An optional sign, then the magnitude. */
  function ParseSigned(t: string): Option<int> {
    if t != [] && t[0] == '-' then
      match ParseUnsigned(t[1..])
      case None => None
      case Some(m) => Some(-(m as int))
    else if t != [] && t[0] == '+' then
      match ParseUnsigned(t[1..])
      case None => None
      case Some(m) => Some(m)
    else
      match ParseUnsigned(t)
      case None => None
      case Some(m) => Some(m)
  }

  /**
   * `parseInt` with no radix: leading white space skipped, an optional sign, a
   * `0x` prefix switching to base 16, then the longest run of digits; `None`
   * stands for `NaN`, the result when there is no digit.
   */
  function ParseInt(s: string): (r: Option<int>)
    ensures r.Some? ==> var t := s[LeadingSpaces(s)..];
      t != [] && (t[0] == '-' || t[0] == '+' || DigitValue(t[0], 10).Some?)
    ensures r.Some? && r.value < 0 ==> s[LeadingSpaces(s)..][0] == '-'
  {
    var t := s[LeadingSpaces(s)..];
    if t != [] && (t[0] == '-' || t[0] == '+') then ParseSigned(t)
    else
      FirstDigit(t);
      ParseSigned(t)
  }

  /** A magnitude is read only from text that starts with a decimal digit. */
  lemma FirstDigit(u: string)
    ensures ParseUnsigned(u).Some? ==> u != [] && DigitValue(u[0], 10).Some?
  {
    if ParseUnsigned(u).Some? {
      if !(|u| >= 2 && u[0] == '0' && (u[1] == 'x' || u[1] == 'X')) {
        assert u[..DigitRun(u, 10)][0] == u[0];
      }
    }
  }

  /** The base-10 spelling of `n`, as `String(n)` writes it. */
  function Decimal(n: nat): (s: string)
    ensures |s| >= 1 && AllDigits(s, 10)
    ensures s[0] == '0' ==> n == 0 && |s| == 1
  {
    var d := ['0' + ((n % 10) as char)];
    if n < 10 then d
    else
      var p := Decimal(n / 10);
      assert (p + d)[0] == p[0];
      p + d
  }

  lemma {:induction false} DecimalValue(n: nat)
    ensures DigitsValue(Decimal(n), 10) == n
  {
    if n >= 10 {
      DecimalValue(n / 10);
      var s := Decimal(n);
      assert s[..|s| - 1] == Decimal(n / 10);
    }
  }

  /** The digits of `n`, followed by text that neither continues them nor makes a `0x` prefix, read back as `n`. */
  lemma ParseUnsignedDecimal(n: nat, rest: string)
    requires rest == [] || (DigitValue(rest[0], 10).None? && rest[0] != 'x' && rest[0] != 'X')
    ensures ParseUnsigned(Decimal(n) + rest) == Some(n)
  {
    var ds := Decimal(n);
    var u := ds + rest;
    assert !(|u| >= 2 && u[0] == '0' && (u[1] == 'x' || u[1] == 'X')) by {
      if |u| >= 2 && u[0] == '0' {
        assert ds[0] == '0' && |ds| == 1;
        assert u[1] == rest[0];
      }
    }
    DigitRunPrefix(ds, rest);
    assert u[..|ds|] == ds;
    DecimalValue(n);
  }

  /** `parseInt` reads back what `String` writes, for either sign and whatever non-digit text follows. */
  lemma ParseIntDecimal(n: nat, negative: bool, rest: string)
    requires rest == [] || (DigitValue(rest[0], 10).None? && rest[0] != 'x' && rest[0] != 'X')
    ensures ParseInt((if negative then "-" else "") + Decimal(n) + rest) == Some(if negative then -(n as int) else n)
  {
    var sign := if negative then "-" else "";
    var u := Decimal(n) + rest;
    assert sign + Decimal(n) + rest == sign + u;
    assert u[0] == Decimal(n)[0];
    ParseUnsignedDecimal(n, rest);
    ParseIntSigned(u, negative, n);
  }

  /** Text that starts with a digit, alone or after a minus sign, is read with that sign. */
  lemma ParseIntSigned(u: string, negative: bool, m: nat)
    requires u != [] && DigitValue(u[0], 10).Some? && ParseUnsigned(u) == Some(m)
    ensures ParseInt((if negative then "-" else "") + u) == Some(if negative then -(m as int) else m)
  {
    var s := (if negative then "-" else "") + u;
    assert s[0] == if negative then '-' else u[0];
    assert LeadingSpaces(s) == 0;
    assert s[LeadingSpaces(s)..] == s;
    if negative {
      assert s[1..] == u;
    }
  }

  /** Text with no digit at all, not even a hexadecimal one, is `NaN`. */
  lemma ParseIntNoDigits(s: string)
    requires forall k :: 0 <= k < |s| ==> DigitValue(s[k], 16).None?
    ensures ParseInt(s) == None
  {
    var t := s[LeadingSpaces(s)..];
    var u := if t != [] && (t[0] == '-' || t[0] == '+') then t[1..] else t;
    assert u == [] || u[0] in s;
    assert u == [] || u[0] != '0';
  }

  lemma {:induction false} DigitRunPrefix(ds: string, rest: string)
    requires AllDigits(ds, 10)
    requires rest == [] || DigitValue(rest[0], 10).None?
    ensures DigitRun(ds + rest, 10) == |ds|
  {
    if ds != [] {
      assert (ds + rest)[0] == ds[0];
      assert (ds + rest)[1..] == ds[1..] + rest;
      DigitRunPrefix(ds[1..], rest);
    }
  }

  /** `parseInt(searchParams.get('limit') || '10')`: ten when the parameter is absent or empty. */
  function LimitOf(param: Option<string>): (r: Option<int>)
    ensures !Truthy(param) ==> r == Some(10)
    ensures Truthy(param) ==> r == ParseInt(param.value)
  {
    if Truthy(param) then ParseInt(param.value)
    else
      assert "" + Decimal(10) + "" == "10";
      ParseIntDecimal(10, false, "");
      ParseInt("10")
  }

  /** `LIMIT` takes a `bigint`: a larger value is out of range and the statement fails. */
  const MaxLimit: int := 0x7FFF_FFFF_FFFF_FFFF

  // ---------------------------------------------------------------------
  // The three SELECTs of the UNION ALL.

  /** The `type` column: which SELECT of the union produced the row. */
  datatype HitKind = StudentKind | ClassKind | AttendanceKind

  function KindName(k: HitKind): string {
    match k
    case StudentKind => "student"
    case ClassKind => "class"
    case AttendanceKind => "attendance"
  }

  /** One row of the union, before formatting. */
  datatype Hit = Hit(id: nat, kind: HitKind, title: string, subtitle: string, description: string, createdAt: nat)

  /** `x ILIKE pattern` for a nullable column: NULL never matches. */
  predicate ILikeOpt(x: Option<string>, q: string) {
    x.Some? && ILike(x.value, q)
  }

  predicate StudentMatches(s: StudentRow, q: string) {
    ILike(s.name, q) || ILikeOpt(s.email, q) || ILike(s.className, q)
  }

  predicate ClassMatches(c: ClassRow, q: string) {
    ILike(c.name, q) || ILike(c.teacher, q) || ILikeOpt(c.description, q)
  }

  predicate AttendanceMatches(a: AttendanceRow, q: string) {
    ILike(a.studentName, q) || ILike(a.className, q)
  }

  function StudentHit(s: StudentRow): Hit {
    Hit(s.id, StudentKind, s.name, s.email.GetOr("No email"), s.className, s.createdAt)
  }

  function ClassHit(c: ClassRow): Hit {
    Hit(c.id, ClassKind, c.name, c.teacher, c.description.GetOr("No description"), c.createdAt)
  }

  /** The subtitle is the stored date; `TO_CHAR`'s formatting is not modelled. */
  function AttendanceHit(a: AttendanceRow): Hit {
    Hit(a.id, AttendanceKind, a.studentName, a.date, "Status: " + AttendanceStatusName(a.status), a.createdAt)
  }

  /** The students SELECT. */
  function StudentHits(students: seq<StudentRow>, q: string): (r: seq<Hit>)
    ensures forall k :: 0 <= k < |r| ==>
              r[k].kind == StudentKind &&
              exists j :: 0 <= j < |students| && StudentMatches(students[j], q) && r[k] == StudentHit(students[j])
    ensures forall j :: 0 <= j < |students| && StudentMatches(students[j], q) ==> StudentHit(students[j]) in r
  {
    var ss := Filter(students, (s: StudentRow) => StudentMatches(s, q));
    var r := seq(|ss|, k requires 0 <= k < |ss| => StudentHit(ss[k]));
    forall k | 0 <= k < |r|
      ensures exists j :: 0 <= j < |students| && StudentMatches(students[j], q) && r[k] == StudentHit(students[j])
    {
      var j :| 0 <= j < |students| && students[j] == ss[k];
    }
    forall j | 0 <= j < |students| && StudentMatches(students[j], q)
      ensures StudentHit(students[j]) in r
    {
      var i :| 0 <= i < |ss| && ss[i] == students[j];
      assert r[i] == StudentHit(students[j]);
    }
    r
  }

  /** The classes SELECT. */
  function ClassHits(classes: seq<ClassRow>, q: string): (r: seq<Hit>)
    ensures forall k :: 0 <= k < |r| ==>
              r[k].kind == ClassKind &&
              exists j :: 0 <= j < |classes| && ClassMatches(classes[j], q) && r[k] == ClassHit(classes[j])
    ensures forall j :: 0 <= j < |classes| && ClassMatches(classes[j], q) ==> ClassHit(classes[j]) in r
  {
    var cs := Filter(classes, (c: ClassRow) => ClassMatches(c, q));
    var r := seq(|cs|, k requires 0 <= k < |cs| => ClassHit(cs[k]));
    forall k | 0 <= k < |r|
      ensures exists j :: 0 <= j < |classes| && ClassMatches(classes[j], q) && r[k] == ClassHit(classes[j])
    {
      var j :| 0 <= j < |classes| && classes[j] == cs[k];
    }
    forall j | 0 <= j < |classes| && ClassMatches(classes[j], q)
      ensures ClassHit(classes[j]) in r
    {
      var i :| 0 <= i < |cs| && cs[i] == classes[j];
      assert r[i] == ClassHit(classes[j]);
    }
    r
  }

  /** The attendance SELECT. */
  function AttendanceHits(attendance: seq<AttendanceRow>, q: string): (r: seq<Hit>)
    ensures forall k :: 0 <= k < |r| ==>
              r[k].kind == AttendanceKind &&
              exists j :: 0 <= j < |attendance| && AttendanceMatches(attendance[j], q) &&
                          r[k] == AttendanceHit(attendance[j])
    ensures forall j :: 0 <= j < |attendance| && AttendanceMatches(attendance[j], q) ==>
              AttendanceHit(attendance[j]) in r
  {
    var ats := Filter(attendance, (a: AttendanceRow) => AttendanceMatches(a, q));
    var r := seq(|ats|, k requires 0 <= k < |ats| => AttendanceHit(ats[k]));
    forall k | 0 <= k < |r|
      ensures exists j :: 0 <= j < |attendance| && AttendanceMatches(attendance[j], q) &&
                          r[k] == AttendanceHit(attendance[j])
    {
      var j :| 0 <= j < |attendance| && attendance[j] == ats[k];
    }
    forall j | 0 <= j < |attendance| && AttendanceMatches(attendance[j], q)
      ensures AttendanceHit(attendance[j]) in r
    {
      var i :| 0 <= i < |ats| && ats[i] == attendance[j];
      assert r[i] == AttendanceHit(attendance[j]);
    }
    r
  }

  /**
   * `UNION ALL` of the three SELECTs, in that order: every hit comes from a
   * matching row, and every matching row of each table gives its hit.
   */
  function Candidates(students: seq<StudentRow>, classes: seq<ClassRow>, attendance: seq<AttendanceRow>, q: string)
    : (r: seq<Hit>)
    ensures forall k :: 0 <= k < |r| ==> FromMatchingRow(r[k], students, classes, attendance, q)
    ensures forall j :: 0 <= j < |students| && StudentMatches(students[j], q) ==> StudentHit(students[j]) in r
    ensures forall j :: 0 <= j < |classes| && ClassMatches(classes[j], q) ==> ClassHit(classes[j]) in r
    ensures forall j :: 0 <= j < |attendance| && AttendanceMatches(attendance[j], q) ==>
              AttendanceHit(attendance[j]) in r
  {
    var sh, ch, ah := StudentHits(students, q), ClassHits(classes, q), AttendanceHits(attendance, q);
    var sc := sh + ch;
    var r := sc + ah;
    forall k | 0 <= k < |r|
      ensures FromMatchingRow(r[k], students, classes, attendance, q)
    {
      if k < |sc| {
        assert r[k] == sc[k];
        if k < |sh| {
          assert sc[k] == sh[k];
          var j :| 0 <= j < |students| && StudentMatches(students[j], q) && sh[k] == StudentHit(students[j]);
        } else {
          var i := k - |sh|;
          assert sc[k] == ch[i];
          var j :| 0 <= j < |classes| && ClassMatches(classes[j], q) && ch[i] == ClassHit(classes[j]);
        }
      } else {
        var i := k - |sc|;
        assert r[k] == ah[i];
        var j :| 0 <= j < |attendance| && AttendanceMatches(attendance[j], q) && ah[i] == AttendanceHit(attendance[j]);
        assert AttendanceMatches(attendance[j], q) && r[k] == AttendanceHit(attendance[j]);
      }
    }
    forall h | h in sh || h in ch || h in ah
      ensures h in r
    {
    }
    r
  }

  /** `ORDER BY created_at DESC` */
  function NewestFirst(a: Hit, b: Hit): bool {
    a.createdAt >= b.createdAt
  }

  /**
   * `ORDER BY created_at DESC LIMIT n`: at most `n` hits, newest first, drawn
   * from the candidates, and none left out is newer than one kept.
   */
  function TopHits(cands: seq<Hit>, n: nat): (r: seq<Hit>)
    ensures |r| == if n < |cands| then n else |cands|
    ensures SortedBy(r, NewestFirst)
    ensures multiset(r) <= multiset(cands)
    ensures forall x :: x in multiset(cands) - multiset(r) ==>
              forall k :: 0 <= k < |r| ==> r[k].createdAt >= x.createdAt
  {
    var sorted := SortBy(cands, NewestFirst);
    SortBySorted(cands, NewestFirst);
    assert |sorted| == |multiset(sorted)| == |multiset(cands)| == |cands|;
    var m := if n < |cands| then n else |cands|;
    TakeNewest(sorted, m);
    sorted[..m]
  }

  /** A prefix of a newest-first list is newest first, and nothing after it is newer. */
  lemma TakeNewest(sorted: seq<Hit>, m: nat)
    requires SortedBy(sorted, NewestFirst) && m <= |sorted|
    ensures SortedBy(sorted[..m], NewestFirst)
    ensures multiset(sorted[..m]) <= multiset(sorted)
    ensures forall x :: x in multiset(sorted) - multiset(sorted[..m]) ==>
              forall k :: 0 <= k < m ==> sorted[..m][k].createdAt >= x.createdAt
  {
    var r, rest := sorted[..m], sorted[m..];
    PrefixSorted(sorted, m);
    RestNotNewer(sorted, m);
    assert sorted == r + rest;
    assert multiset(sorted) - multiset(r) == multiset(rest);
    forall x | x in multiset(sorted) - multiset(r)
      ensures forall k :: 0 <= k < m ==> r[k].createdAt >= x.createdAt
    {
      assert x in rest;
    }
  }

  lemma PrefixSorted(sorted: seq<Hit>, m: nat)
    requires SortedBy(sorted, NewestFirst) && m <= |sorted|
    ensures SortedBy(sorted[..m], NewestFirst)
  {
    var r := sorted[..m];
    forall i, j | 0 <= i < j < m
      ensures NewestFirst(r[i], r[j])
    {
      assert r[i] == sorted[i] && r[j] == sorted[j];
    }
  }

  lemma RestNotNewer(sorted: seq<Hit>, m: nat)
    requires SortedBy(sorted, NewestFirst) && m <= |sorted|
    ensures forall x :: x in sorted[m..] ==> forall k :: 0 <= k < m ==> sorted[k].createdAt >= x.createdAt
  {
    forall x | x in sorted[m..]
      ensures forall k :: 0 <= k < m ==> sorted[k].createdAt >= x.createdAt
    {
      var j :| m <= j < |sorted| && sorted[j] == x;
      forall k | 0 <= k < m
        ensures sorted[k].createdAt >= x.createdAt
      {
        assert NewestFirst(sorted[k], sorted[j]);
      }
    }
  }

  // ---------------------------------------------------------------------
  // Formatting and the handler.

  /** One element of `results` in the reply. */
  datatype SearchResult = SearchResult(id: nat, kind: string, title: string, subtitle: string, description: string,
                                       icon: string, href: string, linkLabel: string, createdAt: nat)

  /** The `switch (result.type)`, with its defaults for any other type. */
  function Link(kind: string): (string, string, string) {
    match kind
    case "student" => ("\U{1F464}", "/students", "Go to Students")
    case "class" => ("\U{1F4DA}", "/classes", "Go to Classes")
    case "attendance" => ("\U{2705}", "/attendance", "Go to Attendance")
    case _ => ("\U{1F50D}", "", "")
  }

  /** `description || ''`: the union never yields a null description, so it passes through. */
  function Format(h: Hit): SearchResult {
    var (icon, href, linkLabel) := Link(KindName(h.kind));
    SearchResult(h.id, KindName(h.kind), h.title, h.subtitle, h.description, icon, href, linkLabel, h.createdAt)
  }

  datatype SearchResponse = Found(query: string, total: nat, results: seq<SearchResult>)
                          | QueryTooShort | SearchFailed

  function SearchStatusCode(r: SearchResponse): int {
    match r
    case Found(_, _, _) => 200
    case QueryTooShort => 400
    case SearchFailed => 500
  }

  /** The `results` field: empty in both error replies. */
  function ResultsOf(r: SearchResponse): seq<SearchResult> {
    if r.Found? then r.results else []
  }

  /**
   * The GET handler.  A query shorter than two characters once trimmed is a 400
   * whatever the limit; a limit that is `NaN`, negative or beyond the `bigint`
   * range makes the database refuse the statement, a 500.
   */
  function Search(students: seq<StudentRow>, classes: seq<ClassRow>, attendance: seq<AttendanceRow>,
                  q: Option<string>, limitParam: Option<string>): (r: SearchResponse)
    ensures r.QueryTooShort? <==> q.None? || |Trim(q.value)| < 2
    ensures r.SearchFailed? <==>
              q.Some? && |Trim(q.value)| >= 2 &&
              (LimitOf(limitParam).None? || LimitOf(limitParam).value < 0 || LimitOf(limitParam).value > MaxLimit)
    ensures r.Found? ==> r.query == Trim(q.value) && r.total == |r.results| &&
                         |r.results| <= LimitOf(limitParam).value
    ensures r.Found? ==>
              var hits := TopHits(Candidates(students, classes, attendance, r.query), LimitOf(limitParam).value);
              |r.results| == |hits| && forall k :: 0 <= k < |hits| ==> r.results[k] == Format(hits[k])
  {
    if q.None? || |Trim(q.value)| < 2 then QueryTooShort
    else
      var query := Trim(q.value);
      match LimitOf(limitParam)
      case None => SearchFailed
      case Some(n) =>
        if n < 0 || n > MaxLimit then SearchFailed
        else Respond(query, TopHits(Candidates(students, classes, attendance, query), n))
  }

  /** The 200 reply: the formatted hits and their number. */
  function Respond(query: string, hits: seq<Hit>): (r: SearchResponse)
    ensures r.Found? && r.query == query && r.total == |r.results| == |hits|
    ensures forall k :: 0 <= k < |hits| ==> r.results[k] == Format(hits[k])
  {
    var results := seq(|hits|, k requires 0 <= k < |hits| => Format(hits[k]));
    Found(query, |results|, results)
  }

  /** Every result links to the page of its kind; the switch's default is never taken. */
  lemma SearchLinks(students: seq<StudentRow>, classes: seq<ClassRow>, attendance: seq<AttendanceRow>,
                    q: Option<string>, limitParam: Option<string>)
    ensures var r := ResultsOf(Search(students, classes, attendance, q, limitParam));
      forall k :: 0 <= k < |r| ==> FormattedLink(r[k])
  {
    var resp := Search(students, classes, attendance, q, limitParam);
    if resp.Found? {
      var hits := TopHits(Candidates(students, classes, attendance, resp.query), LimitOf(limitParam).value);
      forall k | 0 <= k < |hits|
        ensures FormattedLink(Format(hits[k]))
      {
        FormatLink(hits[k]);
      }
    }
  }

  /** The result links to the page of its kind. */
  predicate FormattedLink(r: SearchResult) {
    (r.kind == "student" && r.href == "/students") ||
    (r.kind == "class" && r.href == "/classes") ||
    (r.kind == "attendance" && r.href == "/attendance")
  }

  lemma FormatLink(h: Hit)
    ensures FormattedLink(Format(h))
  {
  }

  /** When the limit is at least the number of hits, every matching student, class and attendance row is found. */
  lemma SearchComplete(students: seq<StudentRow>, classes: seq<ClassRow>, attendance: seq<AttendanceRow>,
                       q: Option<string>, limitParam: Option<string>)
    requires Search(students, classes, attendance, q, limitParam).Found?
    requires LimitOf(limitParam).value >= |Candidates(students, classes, attendance, Trim(q.value))|
    ensures var r := Search(students, classes, attendance, q, limitParam).results;
      (forall j :: 0 <= j < |students| && StudentMatches(students[j], Trim(q.value)) ==>
         Format(StudentHit(students[j])) in r) &&
      (forall j :: 0 <= j < |classes| && ClassMatches(classes[j], Trim(q.value)) ==>
         Format(ClassHit(classes[j])) in r) &&
      (forall j :: 0 <= j < |attendance| && AttendanceMatches(attendance[j], Trim(q.value)) ==>
         Format(AttendanceHit(attendance[j])) in r)
  {
    var query := Trim(q.value);
    var r := Search(students, classes, attendance, q, limitParam).results;
    var cands := Candidates(students, classes, attendance, query);
    var hits := TopHits(cands, LimitOf(limitParam).value);
    assert multiset(hits) == multiset(cands) by {
      MultisetSubEqual(hits, cands);
    }
    forall h | h in cands
      ensures Format(h) in r
    {
      assert h in multiset(hits);
      var i :| 0 <= i < |hits| && hits[i] == h;
      assert r[i] == Format(h);
    }
  }

  /** The hit comes from a row of one of the three tables that matches the query. */
  ghost predicate FromMatchingRow(h: Hit, students: seq<StudentRow>, classes: seq<ClassRow>,
                                  attendance: seq<AttendanceRow>, q: string) {
    (exists j :: 0 <= j < |students| && StudentMatches(students[j], q) && h == StudentHit(students[j])) ||
    (exists j :: 0 <= j < |classes| && ClassMatches(classes[j], q) && h == ClassHit(classes[j])) ||
    (exists j :: 0 <= j < |attendance| && AttendanceMatches(attendance[j], q) && h == AttendanceHit(attendance[j]))
  }

  /** `x` is the formatted form of a row that matches `q`. */
  ghost predicate FormatsMatchingRow(x: SearchResult, students: seq<StudentRow>, classes: seq<ClassRow>,
                                     attendance: seq<AttendanceRow>, q: string) {
    exists h :: FromMatchingRow(h, students, classes, attendance, q) && x == Format(h)
  }

  /** Every result is the formatted form of a row that matches the trimmed query. */
  lemma SearchSound(students: seq<StudentRow>, classes: seq<ClassRow>, attendance: seq<AttendanceRow>,
                    q: Option<string>, limitParam: Option<string>)
    requires Search(students, classes, attendance, q, limitParam).Found?
    ensures var r := Search(students, classes, attendance, q, limitParam).results;
      forall k :: 0 <= k < |r| ==>
        FormatsMatchingRow(r[k], students, classes, attendance, Trim(q.value))
  {
    var query := Trim(q.value);
    var r := Search(students, classes, attendance, q, limitParam).results;
    var cands := Candidates(students, classes, attendance, query);
    var hits := TopHits(cands, LimitOf(limitParam).value);
    assert |r| == |hits| && forall k :: 0 <= k < |hits| ==> r[k] == Format(hits[k]);
    FormattedFromMatching(r, hits, cands, students, classes, attendance, query);
  }

  /** Results formatted from some of the candidates are formatted matching rows. */
  lemma FormattedFromMatching(r: seq<SearchResult>, hits: seq<Hit>, cands: seq<Hit>, students: seq<StudentRow>,
                              classes: seq<ClassRow>, attendance: seq<AttendanceRow>, q: string)
    requires |r| == |hits| && forall k :: 0 <= k < |hits| ==> r[k] == Format(hits[k])
    requires multiset(hits) <= multiset(cands)
    requires forall k :: 0 <= k < |cands| ==> FromMatchingRow(cands[k], students, classes, attendance, q)
    ensures forall k :: 0 <= k < |r| ==> FormatsMatchingRow(r[k], students, classes, attendance, q)
  {
    forall k | 0 <= k < |r|
      ensures FormatsMatchingRow(r[k], students, classes, attendance, q)
    {
      var h := hits[k];
      SubMultisetMember(hits, cands, k);
      var i :| 0 <= i < |cands| && cands[i] == h;
      assert FromMatchingRow(h, students, classes, attendance, q) && r[k] == Format(h);
    }
  }

  lemma SubMultisetMember<T>(a: seq<T>, b: seq<T>, k: nat)
    requires multiset(a) <= multiset(b) && k < |a|
    ensures a[k] in b
  {
    assert a[k] in multiset(a);
  }

  /** A sub-multiset of the same size is the whole multiset. */
  lemma MultisetSubEqual<T>(a: seq<T>, b: seq<T>)
    requires multiset(a) <= multiset(b) && |a| == |b|
    ensures multiset(a) == multiset(b)
  {
    var d := multiset(b) - multiset(a);
    assert multiset(b) == multiset(a) + d;
    assert |multiset(b)| == |multiset(a)| + |d|;
  }
}
