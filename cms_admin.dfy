/**
 * The template tags and filters of the CMS page admin that compute something of
 * their own: the de-duplicated admin list filter, `in_filtered`, `boolean_icon`,
 * the page submit row and `admin_static_url`.
 */
module CmsAdmin {
  import opened Wrappers
  import StringOrder
  import opened FilterChoices

  // ---------------------------------------------------------------------------
  // clean_admin_list_filter
  // ---------------------------------------------------------------------------

  /** The context the `clean_admin_list_filter` tag hands to its template. */
  datatype FilterContext = FilterContext(title: string, choices: seq<Choice>)

  /**
   * `CleanAdminListFilter.get_context`: sorts the filter's choices by query string and
   * keeps the first choice of every run of equal query strings. The result is sorted,
   * has one choice per query string of the input and no other, and the choice kept for a
   * query string is the first one the filter offered with it.
   */
  method CleanAdminListFilter(title: string, choices: seq<Choice>) returns (ctx: FilterContext)
    ensures ctx.title == title
    ensures SortedByKey(ctx.choices)
    ensures DistinctKeys(ctx.choices)
    ensures Keys(ctx.choices) == Keys(choices)
    ensures forall c :: c in ctx.choices ==> First(choices, c.queryString) == Some(c)
  {
    var sorted := SortByKey(choices);
    var queryString: Option<string> := None;
    var unique: seq<Choice> := [];
    var i := 0;
    assert sorted[..0] == [];
    while i < |sorted|
      invariant 0 <= i <= |sorted|
      invariant DedupInvariant(sorted, i, queryString, unique)
    {
      var choice := sorted[i];
      if queryString != Some(choice.queryString) {
        KeepStep(sorted, i, queryString, unique);
        unique := unique + [choice];
        queryString := Some(choice.queryString);
      } else {
        SkipStep(sorted, i, queryString, unique);
      }
      i := i + 1;
    }
    DedupDone(choices, sorted, queryString, unique);
    ctx := FilterContext(title, unique);
  }

  /**
   * What the de-duplication loop knows after looking at the first `i` sorted choices:
   * `queryString` is the key of the last choice looked at, which is also the key of the
   * last choice kept; the kept choices are strictly increasing by key, cover the keys seen
   * so far, and each is the first sorted choice with its key.
   */
  ghost predicate DedupInvariant(sorted: seq<Choice>, i: int, queryString: Option<string>, unique: seq<Choice>)
  {
    && 0 <= i <= |sorted|
    && queryString == (if i == 0 then None else Some(sorted[i - 1].queryString))
    && (i == 0 ==> unique == [])
    && (i > 0 ==> unique != [] && unique[|unique| - 1].queryString == sorted[i - 1].queryString)
    && StrictlySortedByKey(unique)
    && Keys(unique) == Keys(sorted[..i])
    && (forall c :: c in unique ==> First(sorted, c.queryString) == Some(c))
  }

  /** A sorted choice whose key differs from the previous one starts a new run and is kept. */
  lemma KeepStep(sorted: seq<Choice>, i: int, queryString: Option<string>, unique: seq<Choice>)
    requires SortedByKey(sorted) && 0 <= i < |sorted|
    requires DedupInvariant(sorted, i, queryString, unique)
    requires queryString != Some(sorted[i].queryString)
    ensures DedupInvariant(sorted, i + 1, Some(sorted[i].queryString), unique + [sorted[i]])
  {
    var choice := sorted[i];
    assert sorted[..i + 1] == sorted[..i] + [choice];
    KeysAppend(sorted[..i], choice);
    if i > 0 {
      RunBoundary(sorted, i - 1, i);
    }
    ExtendStrictlySorted(unique, choice);
    FirstOfRun(sorted, i);
    KeysAppend(unique, choice);
  }

  /** A sorted choice with the same key as the previous one is dropped. */
  lemma SkipStep(sorted: seq<Choice>, i: int, queryString: Option<string>, unique: seq<Choice>)
    requires 0 <= i < |sorted|
    requires DedupInvariant(sorted, i, queryString, unique)
    requires queryString == Some(sorted[i].queryString)
    ensures DedupInvariant(sorted, i + 1, queryString, unique)
  {
    var choice := sorted[i];
    assert sorted[..i + 1] == sorted[..i] + [choice];
    KeysAppend(sorted[..i], choice);
    assert sorted[i - 1] in sorted[..i];
  }

  /** Once every sorted choice has been looked at, the kept ones meet the tag's contract. */
  lemma DedupDone(choices: seq<Choice>, sorted: seq<Choice>, queryString: Option<string>, unique: seq<Choice>)
    requires sorted == SortByKey(choices)
    requires DedupInvariant(sorted, |sorted|, queryString, unique)
    ensures SortedByKey(unique) && DistinctKeys(unique)
    ensures Keys(unique) == Keys(choices)
    ensures forall c :: c in unique ==> First(choices, c.queryString) == Some(c)
  {
    assert sorted[..|sorted|] == sorted;
    KeysOfPermutation(sorted, choices);
    StrictlySortedIsSortedDistinct(unique);
    forall c | c in unique
      ensures First(choices, c.queryString) == Some(c)
    {
      SortByKeyKeepsFirst(choices, c.queryString);
    }
  }

  /** `s` is ordered strictly increasingly by query string. */
  predicate StrictlySortedByKey(s: seq<Choice>)
  {
    forall a, b :: 0 <= a < b < |s| ==> StringOrder.Lt(s[a].queryString, s[b].queryString)
  }

  /** A choice whose key is above the last key kept can be appended without breaking the strict order. */
  lemma ExtendStrictlySorted(s: seq<Choice>, x: Choice)
    requires StrictlySortedByKey(s)
    requires s != [] ==> StringOrder.Lt(s[|s| - 1].queryString, x.queryString)
    ensures StrictlySortedByKey(s + [x])
  {
    var r := s + [x];
    forall a, b | 0 <= a < b < |r|
      ensures StringOrder.Lt(r[a].queryString, r[b].queryString)
    {
      if b == |s| && a < |s| - 1 {
        StringOrder.LtTransitive(s[a].queryString, s[|s| - 1].queryString, x.queryString);
      }
    }
  }

  lemma StrictlySortedIsSortedDistinct(s: seq<Choice>)
    requires StrictlySortedByKey(s)
    ensures SortedByKey(s) && DistinctKeys(s)
  {
  }

  /**
   * The contract of `CleanAdminListFilter` fixes its result: two sequences that are both
   * sorted with distinct query strings, cover the same query strings and hold only the
   * first choice of each query string are equal.
   */
  lemma {:induction false} CleanChoicesDetermined(choices: seq<Choice>, u: seq<Choice>, v: seq<Choice>)
    requires SortedByKey(u) && DistinctKeys(u)
    requires SortedByKey(v) && DistinctKeys(v)
    requires Keys(u) == Keys(v)
    requires forall c :: c in u ==> First(choices, c.queryString) == Some(c)
    requires forall c :: c in v ==> First(choices, c.queryString) == Some(c)
    ensures u == v
  {
    if u == [] {
      KeysEmpty(v);
    } else {
      assert u[0].queryString in Keys(u);
      assert v != [];
      assert v[0].queryString in Keys(v);
      var i :| 0 <= i < |v| && v[i].queryString == u[0].queryString;
      var j :| 0 <= j < |u| && u[j].queryString == v[0].queryString;
      if i > 0 { assert StringOrder.Le(v[0].queryString, v[i].queryString); } else { StringOrder.LeReflexive(v[0].queryString); }
      if j > 0 { assert StringOrder.Le(u[0].queryString, u[j].queryString); } else { StringOrder.LeReflexive(u[0].queryString); }
      StringOrder.LeAntisymmetric(u[0].queryString, v[0].queryString);
      assert u[0] == v[0] by {
        assert u[0] in u && v[0] in v;
      }
      DropHeadKeys(u);
      DropHeadKeys(v);
      CleanChoicesDetermined(choices, u[1..], v[1..]);
      assert u == [u[0]] + u[1..];
      assert v == [v[0]] + v[1..];
    }
  }

  /** Removing the head of a sequence with distinct keys removes exactly the head's key. */
  lemma DropHeadKeys(s: seq<Choice>)
    requires s != [] && DistinctKeys(s)
    ensures Keys(s[1..]) == Keys(s) - {s[0].queryString}
    ensures SortedByKey(s) ==> SortedByKey(s[1..])
    ensures DistinctKeys(s[1..])
  {
    assert s == [s[0]] + s[1..];
    forall k | k in Keys(s[1..]) ensures k != s[0].queryString {
      var c :| c in s[1..] && c.queryString == k;
      var i :| 0 <= i < |s[1..]| && s[1..][i] == c;
      assert s[i + 1] == c;
    }
  }

  // ---------------------------------------------------------------------------
  // in_filtered
  // ---------------------------------------------------------------------------

  /**
   * `in_filtered(seq1, seq2)`: the elements of `seq1` that occur in `seq2`, in the order
   * of `seq1` and as often as they occur there.
   */
  function InFiltered<T(==,!new)>(seq1: seq<T>, seq2: seq<T>): (r: seq<T>)
    ensures |r| <= |seq1|
    ensures forall x :: x in r ==> x in seq1 && x in seq2
    ensures forall x :: multiset(r)[x] == if x in seq2 then multiset(seq1)[x] else 0
  {
    if seq1 == [] then []
    else
      assert seq1 == [seq1[0]] + seq1[1..];
      (if seq1[0] in seq2 then [seq1[0]] else []) + InFiltered(seq1[1..], seq2)
  }

  /** `r` is obtained from `s` by deleting elements, the rest keeping their order. */
  predicate IsSubsequence<T(==,!new)>(r: seq<T>, s: seq<T>)
    decreases |s|
  {
    r == [] || (s != [] && ((r[0] == s[0] && IsSubsequence(r[1..], s[1..])) || IsSubsequence(r, s[1..])))
  }

  /** The filter keeps the order of `seq1`: its result is a subsequence of `seq1`. */
  lemma {:induction false} InFilteredIsSubsequence<T(!new)>(seq1: seq<T>, seq2: seq<T>)
    ensures IsSubsequence(InFiltered(seq1, seq2), seq1)
  {
    if seq1 != [] {
      InFilteredIsSubsequence(seq1[1..], seq2);
      if seq1[0] in seq2 {
        assert ([seq1[0]] + InFiltered(seq1[1..], seq2))[1..] == InFiltered(seq1[1..], seq2);
      } else {
        assert [] + InFiltered(seq1[1..], seq2) == InFiltered(seq1[1..], seq2);
      }
    }
  }

  /** The filter works element by element: filtering a concatenation concatenates the filtered parts. */
  lemma {:induction false} InFilteredConcat<T(!new)>(a: seq<T>, b: seq<T>, seq2: seq<T>)
    ensures InFiltered(a + b, seq2) == InFiltered(a, seq2) + InFiltered(b, seq2)
  {
    if a == [] {
      assert a + b == b;
    } else {
      var head := if a[0] in seq2 then [a[0]] else [];
      assert (a + b)[0] == a[0];
      assert (a + b)[1..] == a[1..] + b;
      InFilteredConcat(a[1..], b, seq2);
      calc {
        InFiltered(a + b, seq2);
        head + InFiltered(a[1..] + b, seq2);
        head + (InFiltered(a[1..], seq2) + InFiltered(b, seq2));
        (head + InFiltered(a[1..], seq2)) + InFiltered(b, seq2);
      }
    }
  }

  /** Filtering an already filtered sequence by the same container changes nothing. */
  lemma {:induction false} InFilteredIdempotent<T(!new)>(seq1: seq<T>, seq2: seq<T>)
    ensures InFiltered(InFiltered(seq1, seq2), seq2) == InFiltered(seq1, seq2)
  {
    if seq1 != [] {
      var rest := InFiltered(seq1[1..], seq2);
      InFilteredIdempotent(seq1[1..], seq2);
      if seq1[0] in seq2 {
        InFilteredConcat([seq1[0]], rest, seq2);
        assert [seq1[0]][1..] == [];
      } else {
        assert [] + rest == rest;
      }
    }
  }

  // ---------------------------------------------------------------------------
  // boolean_icon
  // ---------------------------------------------------------------------------

  /** A template value handed to the `boolean_icon` filter. */
  datatype Value = Bool(b: bool) | NoneValue | Int(i: int) | Text(s: string)

  /** Python's `==` between template values: `True == 1` and `False == 0`. */
  predicate PyEquals(v: Value, w: Value)
  {
    match (v, w)
    case (Bool(p), Int(n)) => n == (if p then 1 else 0)
    case (Int(n), Bool(p)) => n == (if p then 1 else 0)
    case _ => v == w
  }

  /**
   * `BOOLEAN_MAPPING.get(value, 'unknown')`: the dictionary is keyed by `True`, `False` and
   * `None`, and a lookup matches a key that is `==` to the value.
   */
  function IconName(v: Value): (name: string)
    ensures name == "yes" <==> PyEquals(v, Bool(true))
    ensures name == "no" <==> PyEquals(v, Bool(false))
    ensures name == "unknown" <==> !PyEquals(v, Bool(true)) && !PyEquals(v, Bool(false))
  {
    match v
    case Bool(b) => if b then "yes" else "no"
    case Int(n) => if n == 1 then "yes" else if n == 0 then "no" else "unknown"
    case _ => "unknown"
  }

  /** `s` is a non-empty run of decimal digits. */
  predicate IsDigits(s: string)
  {
    s != [] && forall i :: 0 <= i < |s| ==> '0' <= s[i] <= '9'
  }

  /** `s` is a run of decimal digits without a leading zero, as Python prints a natural number. */
  predicate IsCanonicalDigits(s: string)
  {
    IsDigits(s) && (s[0] == '0' ==> |s| == 1)
  }

  /** The number a run of decimal digits denotes. */
  function DigitsValue(s: string): int
  {
    if s == [] then 0 else DigitsValue(s[..|s| - 1]) * 10 + (s[|s| - 1] as int - '0' as int)
  }

  /** `s` is an integer as Python's `%s` prints it: an optional minus sign before canonical digits, and no `-0`. */
  predicate IsIntText(s: string)
  {
    IsCanonicalDigits(s) || (|s| > 1 && s[0] == '-' && IsCanonicalDigits(s[1..]) && s[1..] != "0")
  }

  /** The integer an integer text denotes. */
  function IntTextValue(s: string): int
  {
    if s != [] && s[0] == '-' then -DigitsValue(s[1..]) else DigitsValue(s)
  }

  /** The decimal digits of `n`. */
  function NatDigits(n: nat): (r: string)
    ensures IsCanonicalDigits(r) && DigitsValue(r) == n
    decreases n
  {
    var d := ('0' as int + n % 10) as char;
    if n < 10 then [d]
    else
      var front := NatDigits(n / 10);
      assert (front + [d])[..|front|] == front;
      front + [d]
  }

  /** Python's `%s` of a template value. */
  function Str(v: Value): (r: string)
    ensures v == Bool(true) ==> r == "True"
    ensures v == Bool(false) ==> r == "False"
    ensures v == NoneValue ==> r == "None"
    ensures v.Int? ==> IsIntText(r) && IntTextValue(r) == v.i
    ensures v.Text? ==> r == v.s
  {
    match v
    case Bool(b) => if b then "True" else "False"
    case NoneValue => "None"
    case Int(n) =>
      if n < 0 then
        var digits := NatDigits(-n);
        assert ("-" + digits)[1..] == digits;
        "-" + digits
      else NatDigits(n)
    case Text(s) => s
  }

  /** Everything of the image tag before the icon name. */
  function IconHead(iconBase: string): string
  {
    "<img src=\"" + iconBase + "icon-"
  }

  const IconMiddle: string := ".gif\" alt=\""
  const IconTail: string := "\" />"

  /**
   * `boolean_icon(value)` with the admin icon base `iconBase`: an image tag that carries the
   * icon chosen for the value and the value's text unchanged, so both can be read back from it.
   */
  function BooleanIcon(iconBase: string, v: Value): (r: string)
    ensures ParseIcon(iconBase, r) == Some(IconTag(IconName(v), Str(v)))
  {
    ParseIconBuilt(iconBase, IconName(v), Str(v));
    IconHead(iconBase) + IconName(v) + IconMiddle + Str(v) + IconTail
  }

  /** What can be read back from an icon tag: the icon's name and its alternative text. */
  datatype IconTag = IconTag(name: string, alt: string)

  /** Reads an image tag as `boolean_icon` builds it for icon `name`, if it is one. */
  function ParseIconAs(iconBase: string, name: string, html: string): (r: Option<IconTag>)
    ensures r.Some? ==> html == IconHead(iconBase) + name + IconMiddle + r.value.alt + IconTail
    ensures r.Some? ==> r.value.name == name
  {
    var head := IconHead(iconBase) + name + IconMiddle;
    if |head| + |IconTail| <= |html| && html[..|head|] == head && html[|html| - |IconTail|..] == IconTail then
      var alt := html[|head|..|html| - |IconTail|];
      assert html == head + alt + IconTail;
      Some(IconTag(name, alt))
    else None
  }

  /** Reads back the icon name and alternative text of a tag `boolean_icon` produced. */
  function ParseIcon(iconBase: string, html: string): Option<IconTag>
  {
    var yes := ParseIconAs(iconBase, "yes", html);
    if yes.Some? then yes
    else
      var no := ParseIconAs(iconBase, "no", html);
      if no.Some? then no else ParseIconAs(iconBase, "unknown", html)
  }

  /** A tag built around one of the three icon names reads back as that name and text. */
  lemma ParseIconBuilt(iconBase: string, name: string, alt: string)
    requires name == "yes" || name == "no" || name == "unknown"
    ensures ParseIcon(iconBase, IconHead(iconBase) + name + IconMiddle + alt + IconTail) == Some(IconTag(name, alt))
  {
    var head := IconHead(iconBase) + name + IconMiddle;
    var html := head + alt + IconTail;
    assert IconHead(iconBase) + name + IconMiddle + alt + IconTail == html;
    assert html[..|head|] == head;
    assert html[|html| - |IconTail|..] == IconTail;
    assert html[|head|..|html| - |IconTail|] == alt;
    var p := |IconHead(iconBase)|;
    assert html[p] == name[0];
    if name != "yes" {
      assert ParseIconAs(iconBase, "yes", html).None?;
    }
    if name == "unknown" {
      assert ParseIconAs(iconBase, "no", html).None?;
    }
  }

  // ---------------------------------------------------------------------------
  // page_submit_row
  // ---------------------------------------------------------------------------

  /** The parts of the change-form context that `page_submit_row` reads. */
  datatype SubmitRowContext = SubmitRowContext(
    orderedObjects: nat,               // how many objects `opts.get_ordered_objects()` lists
    change: bool,
    isPopup: bool,
    saveAs: bool,
    advancedSettings: Option<bool>,    // the 'advanced_settings' key, if present
    basicInfo: Option<bool>,           // the 'basic_info' key, if present
    hasChangePermission: bool,
    language: string,
    objectId: Option<string>)          // the 'object_id' key, if present

  /** The context `page_submit_row` hands to its template. */
  datatype SubmitRow = SubmitRow(
    onclickAttrib: string,
    showDeleteLink: bool,
    showSaveAsNew: bool,
    showSaveAndAddAnother: bool,
    showSaveAndContinue: bool,
    isPopup: bool,
    basicInfo: bool,
    advancedSettings: bool,
    showSave: bool,
    language: string,
    objectId: Option<string>)

  const SubmitOrderForm: string := "onclick=\"submitOrderForm();\""

  /**
   * `PageSubmitRow.get_context`: which buttons the page change form shows. Save is always
   * shown, delete and save-and-add-another never; a popup shows neither save-as-new nor
   * save-and-continue. The 'basic_info' flag is read from the 'advanced_settings' key and
   * the 'advanced_settings' flag from the 'basic_info' key, both defaulting to false.
   */
  function PageSubmitRow(ctx: SubmitRowContext): (r: SubmitRow)
    ensures r.showSave && !r.showDeleteLink && !r.showSaveAndAddAnother
    ensures r.showSaveAsNew <==> !ctx.isPopup && ctx.change && ctx.saveAs
    ensures r.showSaveAndContinue <==> !ctx.isPopup && ctx.hasChangePermission
    ensures r.onclickAttrib != "" <==> ctx.orderedObjects > 0 && ctx.change
    ensures r.onclickAttrib == "" || r.onclickAttrib == SubmitOrderForm
    ensures r.basicInfo <==> ctx.advancedSettings == Some(true)
    ensures r.advancedSettings <==> ctx.basicInfo == Some(true)
    ensures r.isPopup == ctx.isPopup && r.language == ctx.language && r.objectId == ctx.objectId
  {
    SubmitRow(
      onclickAttrib := if ctx.orderedObjects > 0 && ctx.change then SubmitOrderForm else "",
      showDeleteLink := false,
      showSaveAsNew := !ctx.isPopup && ctx.change && ctx.saveAs,
      showSaveAndAddAnother := false,
      showSaveAndContinue := !ctx.isPopup && ctx.hasChangePermission,
      isPopup := ctx.isPopup,
      basicInfo := ctx.advancedSettings.GetOr(false),
      advancedSettings := ctx.basicInfo.GetOr(false),
      showSave := true,
      language := ctx.language,
      objectId := ctx.objectId)
  }

  // ---------------------------------------------------------------------------
  // admin_static_url
  // ---------------------------------------------------------------------------

  /**
   * `admin_static_url`: the `ADMIN_MEDIA_PREFIX` setting when it is set to a non-empty
   * string, otherwise `STATIC_URL` followed by `admin/`. The result is never empty.
   */
  function AdminStaticUrl(adminMediaPrefix: Option<string>, staticUrl: string): (r: string)
    ensures r != ""
    ensures adminMediaPrefix.Some? && adminMediaPrefix.value != "" ==> r == adminMediaPrefix.value
    ensures adminMediaPrefix == None || adminMediaPrefix == Some("") ==> r == staticUrl + "admin/"
  {
    match adminMediaPrefix
    case Some(prefix) => if prefix != "" then prefix else staticUrl + "admin/"
    case None => staticUrl + "admin/"
  }
}
