/** Template population: generated text is written between pairs of markers in a file's contents. */
module Template {

  /** A fragment: its two markers and what it renders to. */
  datatype Fragment = Fragment(start: string, end: string, rendered: string)

  // ---- Python's string operations ----

  predicate Occurs(s: string, m: string, p: int) {
    0 <= p <= |s| - |m| && s[p..p + |m|] == m
  }

  /** `s.find(m)` from position `i` on. */
  function FindFrom(s: string, m: string, i: nat): (r: int)
    requires i <= |s|
    ensures r == -1 || (i <= r && Occurs(s, m, r))
    ensures forall p :: i <= p && Occurs(s, m, p) ==> 0 <= r <= p
    decreases |s| - i
  {
    if Occurs(s, m, i) then i
    else if i == |s| then -1
    else FindFrom(s, m, i + 1)
  }

  function Find(s: string, m: string): int {
    FindFrom(s, m, 0)
  }

  /** `s[:i]`; an index of -1 leaves out the last character. */
  function Upto(s: string, i: int): string
    requires -1 <= i <= |s|
  {
    if i >= 0 then s[..i] else if s == "" then "" else s[..|s| - 1]
  }

  /** `s[i:]`; an index of -1 is the last character. */
  function From(s: string, i: int): string
    requires -1 <= i <= |s|
  {
    if i >= 0 then s[i..] else if s == "" then "" else s[|s| - 1..]
  }

  /** One turn of the loop in `populate`. */
  function Replaced(c: string, f: Fragment): string {
    Upto(c, Find(c, f.start)) + f.start + f.rendered + From(c, Find(c, f.end))
  }

  function Populated(c: string, fs: seq<Fragment>): string {
    if fs == [] then c else Replaced(Populated(c, fs[..|fs| - 1]), fs[|fs| - 1])
  }

  /** `populate` without overwriting, on the file's contents and the fragments in the order they are listed. */
  method Populate(text: string, fragments: seq<Fragment>) returns (contents: string)
    ensures contents == Populated(text, fragments)
  {
    contents := text;
    for i := 0 to |fragments|
      invariant contents == Populated(text, fragments[..i])
    {
      var fragment := fragments[i];
      var preamble := Upto(contents, Find(contents, fragment.start));
      var postamble := From(contents, Find(contents, fragment.end));
      contents := preamble + fragment.start + fragment.rendered + postamble;
      assert fragments[..i + 1][..i] == fragments[..i];
    }
    assert fragments[..|fragments|] == fragments;
  }

  // ---- documents ----

  /** A file's contents: text, and regions between the two markers of a fragment. */
  datatype Piece = Text(text: string) | Region(fragment: Fragment, body: string)

  function PieceText(p: Piece): string {
    match p
    case Text(t) => t
    case Region(f, body) => f.start + body + f.end
  }

  function Contents(d: seq<Piece>): string {
    if d == [] then "" else PieceText(d[0]) + Contents(d[1..])
  }

  /** The document with the regions of the listed fragments filled, and nothing else changed. */
  function Filled(d: seq<Piece>, fs: set<Fragment>): (r: seq<Piece>)
    ensures |r| == |d|
  {
    seq(|d|, i requires 0 <= i < |d| =>
      if d[i].Region? && d[i].fragment in fs then Region(d[i].fragment, d[i].fragment.rendered) else d[i])
  }

  // ---- what the generator takes for granted ----

  /** `y` laid over `x` at distance `d` agrees with it wherever both have a character. */
  ghost predicate Agree(x: string, y: string, d: int) {
    forall i :: 0 <= i < |x| && 0 <= i - d < |y| ==> x[i] == y[i - d]
  }

  /** The strings cannot overlap, except for a string with itself in the same place. */
  ghost predicate Apart(x: string, y: string) {
    forall d :: -|y| < d < |x| && Agree(x, y, d) ==> d == 0 && x == y
  }

  ghost predicate IsMarker(all: set<Fragment>, x: string) {
    exists f :: f in all && (x == f.start || x == f.end)
  }

  /** Markers are not empty and cannot overlap, and no rendered text contains one. */
  ghost predicate Good(all: set<Fragment>) {
    && (forall x :: IsMarker(all, x) ==> |x| > 0)
    && (forall x, y {:trigger Apart(x, y)} :: IsMarker(all, x) && IsMarker(all, y) ==> Apart(x, y))
    && (forall f, x, p {:trigger Occurs(f.rendered, x, p)} :: f in all && IsMarker(all, x) ==>
          !Occurs(f.rendered, x, p))
  }

  ghost predicate Unique(c: string, m: string) {
    forall p, q :: Occurs(c, m, p) && Occurs(c, m, q) ==> p == q
  }

  /** Its regions belong to good fragments, and each of their markers occurs in it once only. */
  ghost predicate Document(d: seq<Piece>, all: set<Fragment>) {
    && Good(all)
    && (forall x {:trigger Unique(Contents(d), x)} :: IsMarker(all, x) ==> Unique(Contents(d), x))
    && (forall i {:trigger d[i]} :: 0 <= i < |d| && d[i].Region? ==> d[i].fragment in all)
  }

  // ---- one replacement ----

  /** Markers in one text are disjoint or the same one. */
  lemma MarkersDoNotOverlap(c: string, x: string, p: int, y: string, q: int)
    requires Apart(x, y) && Occurs(c, x, p) && Occurs(c, y, q) && p < q + |y| && q < p + |x|
    ensures p == q && x == y
  {
    forall i | 0 <= i < |x| && 0 <= i - (q - p) < |y| ensures x[i] == y[i - (q - p)] {
      assert c[p..p + |x|][i] == c[p + i] && c[q..q + |y|][i - (q - p)] == c[p + i];
    }
    assert Agree(x, y, q - p);
  }

  /** An occurrence in a concatenation, on the side it lies on. */
  lemma OccursLeft(a: string, b: string, m: string, p: int)
    requires 0 <= p && p + |m| <= |a|
    ensures Occurs(a + b, m, p) <==> Occurs(a, m, p)
  {
    assert (a + b)[p..p + |m|] == a[p..p + |m|];
  }

  lemma OccursRight(a: string, b: string, m: string, p: int)
    requires p >= |a|
    ensures Occurs(a + b, m, p) <==> Occurs(b, m, p - |a|)
  {
    if p + |m| <= |a + b| {
      assert (a + b)[p..p + |m|] == b[p - |a|..p - |a| + |m|];
    }
  }

  /** An occurrence in `head + mid + tail` of a string that is not in `mid` lies in the head or in the tail, when
      the head ends and the tail begins with strings it cannot overlap. */
  lemma OccursInHeadOrTail(head: string, mid: string, tail: string, start: string, end: string, m: string, p: int)
    requires Occurs(head, start, |head| - |start|) && Occurs(tail, end, 0) && |start| > 0 && |end| > 0 && |m| > 0
    requires Apart(m, start) && Apart(m, end) && forall q :: !Occurs(mid, m, q)
    requires Occurs(head + mid + tail, m, p)
    ensures p + |m| <= |head| || |head| + |mid| <= p
  {
    var c := head + mid + tail;
    assert c == head + (mid + tail);
    OccursLeft(head, mid + tail, start, |head| - |start|);
    OccursRight(head + mid, tail, end, |head| + |mid|);
    if p < |head| < p + |m| {
      MarkersDoNotOverlap(c, m, p, start, |head| - |start|);
    } else if p < |head| + |mid| < p + |m| {
      MarkersDoNotOverlap(c, m, p, end, |head| + |mid|);
    } else if |head| <= p && p + |m| <= |head| + |mid| {
      OccursRight(head, mid + tail, m, p);
      OccursLeft(mid, tail, m, p - |head|);
    }
  }

  /** So a string that occurs once at most around `old_` occurs once at most around `mid`. */
  lemma UniqueAround(head: string, old_: string, mid: string, tail: string, start: string, end: string, m: string)
    requires Occurs(head, start, |head| - |start|) && Occurs(tail, end, 0) && |start| > 0 && |end| > 0 && |m| > 0
    requires Apart(m, start) && Apart(m, end) && forall p :: !Occurs(mid, m, p)
    requires Unique(head + old_ + tail, m)
    ensures Unique(head + mid + tail, m)
  {
    SameOccurrences(head, old_, mid, tail, m);
    forall p | Occurs(head + mid + tail, m, p)
      ensures p + |m| <= |head| || |head| + |mid| <= p
      ensures Occurs(head + old_ + tail, m, if p + |m| <= |head| then p else p - |mid| + |old_|)
    {
      OccursInHeadOrTail(head, mid, tail, start, end, m, p);
    }
  }

  /** What stands between head and tail makes no difference to what occurs in them. */
  lemma SameOccurrences(head: string, old_: string, mid: string, tail: string, m: string)
    ensures forall p :: 0 <= p && p + |m| <= |head| ==>
            (Occurs(head + old_ + tail, m, p) <==> Occurs(head + mid + tail, m, p))
    ensures forall p :: |head| + |old_| <= p ==>
              (Occurs(head + old_ + tail, m, p) <==> Occurs(head + mid + tail, m, p - |old_| + |mid|))
    ensures forall p :: |head| + |mid| <= p ==>
              (Occurs(head + mid + tail, m, p) <==> Occurs(head + old_ + tail, m, p - |mid| + |old_|))
  {
    assert head + old_ + tail == head + (old_ + tail) && head + mid + tail == head + (mid + tail);
    forall p | 0 <= p && p + |m| <= |head|
      ensures Occurs(head + old_ + tail, m, p) <==> Occurs(head + mid + tail, m, p)
    {
      OccursLeft(head, old_ + tail, m, p);
      OccursLeft(head, mid + tail, m, p);
    }
    forall p | |head| + |old_| <= p
      ensures Occurs(head + old_ + tail, m, p) <==> Occurs(head + mid + tail, m, p - |old_| + |mid|)
    {
      OccursRight(head + old_, tail, m, p);
      OccursRight(head + mid, tail, m, p - |old_| + |mid|);
    }
    forall p | |head| + |mid| <= p
      ensures Occurs(head + mid + tail, m, p) <==> Occurs(head + old_ + tail, m, p - |mid| + |old_|)
    {
      OccursRight(head + old_, tail, m, p - |mid| + |old_|);
      OccursRight(head + mid, tail, m, p);
    }
  }

  lemma {:induction false} ContentsJoin(a: seq<Piece>, b: seq<Piece>)
    ensures Contents(a + b) == Contents(a) + Contents(b)
  {
    if a == [] {
      assert a + b == b;
    } else {
      assert (a + b)[1..] == a[1..] + b;
      calc {
        Contents(a + b);
        PieceText(a[0]) + Contents(a[1..] + b);
        { ContentsJoin(a[1..], b); }
        PieceText(a[0]) + (Contents(a[1..]) + Contents(b));
        PieceText(a[0]) + Contents(a[1..]) + Contents(b);
      }
    }
  }

  /** The contents up to a region's body, and behind it. */
  function Before(d: seq<Piece>, i: nat): string
    requires i < |d| && d[i].Region?
  {
    Contents(d[..i]) + d[i].fragment.start
  }

  function Behind(d: seq<Piece>, i: nat): string
    requires i < |d| && d[i].Region?
  {
    d[i].fragment.end + Contents(d[i + 1..])
  }

  lemma AroundRegion(d: seq<Piece>, i: nat)
    requires i < |d| && d[i].Region?
    ensures Contents(d) == Before(d, i) + d[i].body + Behind(d, i)
  {
    ContentsAt(d, i);
    Regroup(Contents(d[..i]), d[i].fragment.start, d[i].body, d[i].fragment.end, Contents(d[i + 1..]));
  }

  lemma ContentsAt(d: seq<Piece>, i: nat)
    requires i < |d|
    ensures Contents(d) == Contents(d[..i]) + (PieceText(d[i]) + Contents(d[i + 1..]))
  {
    assert d == d[..i] + d[i..];
    ContentsJoin(d[..i], d[i..]);
    assert d[i..][1..] == d[i + 1..];
  }

  lemma Regroup(a: string, b: string, c: string, d: string, e: string)
    ensures a + ((b + c + d) + e) == (a + b) + c + (d + e)
  {
  }

  /** The markers stand where the region says. */
  lemma MarkersStand(d: seq<Piece>, i: nat)
    requires i < |d| && d[i].Region?
    ensures Occurs(Before(d, i), d[i].fragment.start, |Contents(d[..i])|)
    ensures Occurs(Behind(d, i), d[i].fragment.end, 0)
    ensures Occurs(Contents(d), d[i].fragment.start, |Contents(d[..i])|)
    ensures Occurs(Contents(d), d[i].fragment.end, |Before(d, i)| + |d[i].body|)
  {
    AroundRegion(d, i);
    var f := d[i].fragment;
    assert Before(d, i) + d[i].body + Behind(d, i) == Before(d, i) + (d[i].body + Behind(d, i));
    OccursLeft(Before(d, i), d[i].body + Behind(d, i), f.start, |Contents(d[..i])|);
    OccursRight(Before(d, i) + d[i].body, Behind(d, i), f.end, |Before(d, i)| + |d[i].body|);
  }

  lemma UniqueIsFound(c: string, m: string, p: int)
    requires Occurs(c, m, p) && Unique(c, m)
    ensures Find(c, m) == p
  {
  }

  function With(d: seq<Piece>, i: nat): seq<Piece>
    requires i < |d| && d[i].Region?
  {
    d[i := Region(d[i].fragment, d[i].fragment.rendered)]
  }

  lemma SameSurroundings(d: seq<Piece>, i: nat)
    requires i < |d| && d[i].Region?
    ensures Before(With(d, i), i) == Before(d, i) && Behind(With(d, i), i) == Behind(d, i)
  {
    assert With(d, i)[..i] == d[..i] && With(d, i)[i + 1..] == d[i + 1..];
  }

  lemma FoundAtRegion(d: seq<Piece>, all: set<Fragment>, i: nat)
    requires Document(d, all) && i < |d| && d[i].Region?
    ensures Find(Contents(d), d[i].fragment.start) == |Contents(d[..i])|
    ensures Find(Contents(d), d[i].fragment.end) == |Before(d, i)| + |d[i].body|
  {
    var f, c := d[i].fragment, Contents(d);
    assert IsMarker(all, f.start) && IsMarker(all, f.end);
    assert Unique(Contents(d), f.start) && Unique(Contents(d), f.end);
    MarkersStand(d, i);
    UniqueIsFound(c, f.start, |Contents(d[..i])|);
    UniqueIsFound(c, f.end, |Before(d, i)| + |d[i].body|);
  }

  lemma ReplacedAt(f: Fragment, a: string, body: string, tail: string)
    requires var c := (a + f.start) + body + tail;
             Find(c, f.start) == |a| && Find(c, f.end) == |a + f.start| + |body|
    ensures Replaced((a + f.start) + body + tail, f) == (a + f.start) + f.rendered + tail
  {
    var c := (a + f.start) + body + tail;
    assert c[..|a|] == a && c[|a + f.start| + |body|..] == tail;
  }

  /** Replacing by markers fills exactly the fragment's region. */
  lemma ReplacedFillsRegion(d: seq<Piece>, all: set<Fragment>, i: nat)
    requires Document(d, all) && i < |d| && d[i].Region?
    ensures Replaced(Contents(d), d[i].fragment) == Contents(With(d, i))
  {
    FoundAtRegion(d, all, i);
    AroundRegion(d, i);
    ReplacedAt(d[i].fragment, Contents(d[..i]), d[i].body, Behind(d, i));
    AroundRegion(With(d, i), i);
    SameSurroundings(d, i);
  }

  lemma StillADocument(d: seq<Piece>, all: set<Fragment>, i: nat)
    requires Document(d, all) && i < |d| && d[i].Region?
    ensures Document(With(d, i), all)
  {
    var f := d[i].fragment;
    AroundRegion(d, i);
    AroundRegion(With(d, i), i);
    SameSurroundings(d, i);
    MarkersStand(d, i);
    assert IsMarker(all, f.start) && IsMarker(all, f.end);
    forall x | IsMarker(all, x) ensures Unique(Contents(With(d, i)), x) {
      assert Unique(Contents(d), x) && Apart(x, f.start) && Apart(x, f.end);
      UniqueAround(Before(d, i), d[i].body, f.rendered, Behind(d, i), f.start, f.end, x);
    }
  }

  // ---- whole populations ----

  ghost predicate HasRegion(d: seq<Piece>, f: Fragment) {
    exists i :: 0 <= i < |d| && d[i].Region? && d[i].fragment == f
  }

  lemma ContentsGrow(d: seq<Piece>, i: nat, j: nat)
    requires i < j <= |d|
    ensures |Contents(d[..j])| >= |Contents(d[..i])| + |PieceText(d[i])|
  {
    ContentsAt(d[..j], i);
    assert d[..j][..i] == d[..i];
  }

  /** A fragment has one region: its start marker occurs once. */
  lemma RegionsDiffer(d: seq<Piece>, all: set<Fragment>, i: nat, j: nat)
    requires Document(d, all) && i < j < |d| && d[i].Region? && d[j].Region?
    ensures d[i].fragment != d[j].fragment
  {
    var f := d[i].fragment;
    assert IsMarker(all, f.start) && IsMarker(all, f.end);
    MarkersStand(d, i);
    MarkersStand(d, j);
    ContentsGrow(d, i, j);
    assert Unique(Contents(d), f.start);
  }

  /** Populating fills exactly the regions of the listed fragments, whatever their order: every text piece and
      every other region is as it was, and in its place. */
  lemma {:induction false} PopulateFills(d: seq<Piece>, all: set<Fragment>, fs: seq<Fragment>)
    requires Document(d, all) && forall f <- fs :: HasRegion(d, f)
    ensures Populated(Contents(d), fs) == Contents(Filled(d, set f <- fs))
    ensures Document(Filled(d, set f <- fs), all)
  {
    if fs == [] {
      assert Filled(d, set f <- fs) == d;
    } else {
      var init, last := fs[..|fs| - 1], fs[|fs| - 1];
      assert fs == init + [last];
      PopulateFills(d, all, init);
      assert HasRegion(d, last);
      var i: nat :| i < |d| && d[i].Region? && d[i].fragment == last;
      var e := Filled(d, set f <- init);
      OneMoreFilled(d, all, init, last, i);
      ReplacedFillsRegion(e, all, i);
      StillADocument(e, all, i);
    }
  }

  lemma OneMoreFilled(d: seq<Piece>, all: set<Fragment>, init: seq<Fragment>, last: Fragment, i: nat)
    requires Document(d, all) && i < |d| && d[i].Region? && d[i].fragment == last
    ensures var e := Filled(d, set f <- init);
            e[i].Region? && e[i].fragment == last && With(e, i) == Filled(d, set f <- init + [last])
  {
    var e := Filled(d, set f <- init);
    forall j | 0 <= j < |d| ensures With(e, i)[j] == Filled(d, set f <- init + [last])[j] {
      if j < i && d[j].Region? {
        RegionsDiffer(d, all, j, i);
      } else if i < j && d[j].Region? {
        RegionsDiffer(d, all, i, j);
      }
    }
  }

  /** The order in which the fragments are listed, and listing one twice, makes no difference. */
  lemma OrderDoesNotMatter(d: seq<Piece>, all: set<Fragment>, fs: seq<Fragment>, gs: seq<Fragment>)
    requires Document(d, all) && (forall f <- fs :: HasRegion(d, f)) && (forall f :: f in fs <==> f in gs)
    ensures Populated(Contents(d), fs) == Populated(Contents(d), gs)
  {
    assert (set f <- fs) == (set f <- gs);
    PopulateFills(d, all, fs);
    PopulateFills(d, all, gs);
  }

  /** Populating once more changes nothing. */
  lemma PopulateIsIdempotent(d: seq<Piece>, all: set<Fragment>, fs: seq<Fragment>)
    requires Document(d, all) && forall f <- fs :: HasRegion(d, f)
    ensures Populated(Populated(Contents(d), fs), fs) == Populated(Contents(d), fs)
  {
    var e := Filled(d, set f <- fs);
    PopulateFills(d, all, fs);
    StillHasRegions(d, fs);
    PopulateFills(e, all, fs);
    assert Filled(e, set f <- fs) == e;
  }

  lemma StillHasRegions(d: seq<Piece>, fs: seq<Fragment>)
    requires forall f <- fs :: HasRegion(d, f)
    ensures forall f <- fs :: HasRegion(Filled(d, set g <- fs), f)
  {
    var e := Filled(d, set f <- fs);
    forall f | f in fs ensures HasRegion(e, f) {
      var i :| 0 <= i < |d| && d[i].Region? && d[i].fragment == f;
      assert e[i].Region? && e[i].fragment == f;
    }
  }

  /** Without its markers a fragment is written in front of the file's last character, and its markers with it: the
      file gains a region it did not have. */
  lemma MissingMarkersInsert(c: string, f: Fragment)
    requires |c| > 0 && forall p :: !Occurs(c, f.start, p) && !Occurs(c, f.end, p)
    ensures Replaced(c, f) == c[..|c| - 1] + f.start + f.rendered + c[|c| - 1..]
  {
    assert Find(c, f.start) == -1 && Find(c, f.end) == -1;
  }

  // ---- the markers the generator writes ----

  /** `count` times the character `mark`, then none. */
  ghost predicate Delimited(x: string, mark: char, count: nat) {
    && 0 < count < |x|
    && (forall i :: 0 <= i < count ==> x[i] == mark)
    && (forall i :: count <= i < |x| ==> x[i] != mark)
  }

  /** Markers behind the same delimiter cannot overlap unless one is the beginning of the other. */
  lemma DelimitedMarkersAreApart(x: string, y: string, mark: char, count: nat)
    requires Delimited(x, mark, count) && Delimited(y, mark, count)
    requires x <= y || y <= x ==> x == y
    ensures Apart(x, y)
  {
    forall d | -|y| < d < |x| && Agree(x, y, d) ensures d == 0 && x == y {
      AgreementIsInPlace(x, y, mark, count, d);
    }
  }

  lemma AgreementIsInPlace(x: string, y: string, mark: char, count: nat, d: int)
    requires Delimited(x, mark, count) && Delimited(y, mark, count)
    requires -|y| < d < |x| && Agree(x, y, d)
    ensures d == 0 && (x <= y || y <= x)
  {
    var probe := if d > 0 then (if d < count then count else d) else if -d < count then count + d else 0;
    var agrees := 0 <= probe < |x| && 0 <= probe - d < |y| ==> x[probe] == y[probe - d];
    assert agrees;
    if d == 0 {
      assert forall i :: 0 <= i < |x| && i < |y| ==> x[i] == y[i - 0];
    }
  }

  /** The start and end markers of a fragment file, by its identifier in upper case. */
  function StartMarker(delimiter: string, identifier: string, markdown: bool): string {
    Marker(delimiter, identifier, StartSuffix(markdown))
  }

  function EndMarker(delimiter: string, identifier: string): string {
    Marker(delimiter, identifier, "_END")
  }

  function Marker(delimiter: string, identifier: string, suffix: string): string {
    delimiter + " OQS_TEMPLATE_FRAGMENT_" + identifier + suffix
  }

  function StartSuffix(markdown: bool): string {
    if markdown then "_START -->" else "_START"
  }

  /** The delimiters the generator uses, for C, Python and Markdown files, make such markers. */
  lemma MarkersAreDelimited(delimiter: string, identifier: string, markdown: bool)
    requires delimiter == "/////" || delimiter == "#####" || delimiter == "<!---"
    requires delimiter[0] !in identifier
    ensures StartMarker(delimiter, identifier, markdown)
         == delimiter + " OQS_TEMPLATE_FRAGMENT_" + identifier + if markdown then "_START -->" else "_START"
    ensures EndMarker(delimiter, identifier) == delimiter + " OQS_TEMPLATE_FRAGMENT_" + identifier + "_END"
    ensures var count := if delimiter == "<!---" then 1 else 5;
            && Delimited(StartMarker(delimiter, identifier, markdown), delimiter[0], count)
            && Delimited(EndMarker(delimiter, identifier), delimiter[0], count)
  {
    var count := if delimiter == "<!---" then 1 else 5;
    MarkerIsDelimited(delimiter, count, identifier, StartSuffix(markdown));
    MarkerIsDelimited(delimiter, count, identifier, "_END");
  }

  lemma MarkerIsDelimited(delimiter: string, count: nat, identifier: string, suffix: string)
    requires 0 < count <= |delimiter|
    requires forall i :: 0 <= i < count ==> delimiter[i] == delimiter[0]
    requires forall i :: count <= i < |delimiter| ==> delimiter[i] != delimiter[0]
    requires delimiter[0] !in " OQS_TEMPLATE_FRAGMENT_" && delimiter[0] !in identifier && delimiter[0] !in suffix
    ensures Delimited(Marker(delimiter, identifier, suffix), delimiter[0], count)
  {
    var stem := " OQS_TEMPLATE_FRAGMENT_";
    var rest := stem + identifier + suffix;
    var x := delimiter + stem + identifier + suffix;
    assert x == delimiter + rest;
    forall i | count <= i < |x| ensures x[i] != delimiter[0] {
      if i >= |delimiter| {
        assert x[i] == rest[i - |delimiter|];
        assert rest[i - |delimiter|] in rest;
      }
    }
  }

  /** What follows the identifier in a marker: an underscore, and no other. */
  ghost predicate Suffix(u: string) {
    u != "" && u[0] == '_' && forall k :: 0 < k < |u| ==> u[k] != '_'
  }

  /** One marker can begin another only if they are the same up to the identifier or the longer identifier goes on
      with the whole suffix of the shorter one. */
  lemma BeginningOfMarker(i: string, u: string, j: string, w: string)
    requires Suffix(u) && Suffix(w) && i + u <= j + w
    ensures (i == j && u <= w) || i + u <= j
  {
    var x, y := i + u, j + w;
    assert x[|i|] == y[|i|] == '_' && (|j| < |x| ==> x[|j|] == y[|j|] == '_');
    assert forall k :: |i| < k < |x| ==> x[k] == u[k - |i|] != '_';
    assert forall k :: |j| < k < |y| ==> y[k] == w[k - |j|] != '_';
    if |j| >= |x| {
      assert x == y[..|x|] == j[..|x|];
    } else if |i| == |j| {
      assert i == x[..|i|] == y[..|i|] == j;
      assert u == x[|i|..] && w == y[|i|..];
    } else {
      assert false;
    }
  }

  /** No identifier goes on from another one with the suffix of a marker. */
  ghost predicate Unextended(identifiers: set<string>) {
    forall i, j :: i in identifiers && j in identifiers ==> !(i + "_START" <= j) && !(i + "_END" <= j)
  }

  ghost predicate WrittenFor(x: string, delimiter: string, identifiers: set<string>, markdown: bool) {
    exists i :: i in identifiers && (x == StartMarker(delimiter, i, markdown) || x == EndMarker(delimiter, i))
  }

  lemma MarkerSuffixes(markdown: bool)
    ensures Suffix("_START") && Suffix("_START -->") && Suffix("_END")
    ensures !("_END" <= "_START") && !("_END" <= "_START -->") && !("_START" <= "_END") && !("_START -->" <= "_END")
  {
    assert "_END"[1] != "_START"[1] && "_END"[1] != "_START -->"[1];
  }

  lemma PartsOfMarker(x: string, delimiter: string, identifiers: set<string>, markdown: bool)
    returns (i: string, u: string)
    requires WrittenFor(x, delimiter, identifiers, markdown)
    ensures i in identifiers && (u == "_END" || u == StartSuffix(markdown)) && x == Marker(delimiter, i, u)
  {
    i :| i in identifiers && (x == StartMarker(delimiter, i, markdown) || x == EndMarker(delimiter, i));
    u := if x == StartMarker(delimiter, i, markdown) then StartSuffix(markdown) else "_END";
  }

  /** Among the markers of one file, none begins another. */
  lemma WrittenMarkersDiffer(x: string, y: string, delimiter: string, identifiers: set<string>, markdown: bool)
    requires Unextended(identifiers)
    requires WrittenFor(x, delimiter, identifiers, markdown) && WrittenFor(y, delimiter, identifiers, markdown)
    requires x <= y
    ensures x == y
  {
    var i, u := PartsOfMarker(x, delimiter, identifiers, markdown);
    var j, w := PartsOfMarker(y, delimiter, identifiers, markdown);
    BehindStem(delimiter, i, u, j, w);
    MarkerSuffixes(markdown);
    BeginningOfMarker(i, u, j, w);
    ShorterSuffix(i, j);
  }

  lemma BehindStem(delimiter: string, i: string, u: string, j: string, w: string)
    requires Marker(delimiter, i, u) <= Marker(delimiter, j, w)
    ensures i + u <= j + w
    ensures i == j && u == w ==> Marker(delimiter, i, u) == Marker(delimiter, j, w)
  {
    var stem := delimiter + " OQS_TEMPLATE_FRAGMENT_";
    var x, y := stem + i + u, stem + j + w;
    assert i + u == x[|stem|..] && j + w == y[|stem|..];
    assert i + u == (j + w)[..|i + u|];
  }

  lemma ShorterSuffix(i: string, j: string)
    ensures i + "_START -->" <= j ==> i + "_START" <= j
  {
    if i + "_START -->" <= j {
      assert i + "_START" == (i + "_START -->")[..|i| + 6];
    }
  }

  /** So the generator's own fragments are good as far as their markers go: with identifiers that neither contain the
      delimiter's character nor go on from one another with a suffix, only the rendered texts are left to look at. */
  lemma GeneratorFragmentsAreGood(all: set<Fragment>, delimiter: string, identifiers: set<string>, markdown: bool)
    requires delimiter == "/////" || delimiter == "#####" || delimiter == "<!---"
    requires Unextended(identifiers) && forall i <- identifiers :: delimiter[0] !in i
    requires forall x :: IsMarker(all, x) ==> WrittenFor(x, delimiter, identifiers, markdown)
    ensures Good(all) <==>
            forall f, x, p {:trigger Occurs(f.rendered, x, p)} :: f in all && IsMarker(all, x) ==>
              !Occurs(f.rendered, x, p)
  {
    var count := if delimiter == "<!---" then 1 else 5;
    forall x | IsMarker(all, x) ensures Delimited(x, delimiter[0], count) {
      var i :| i in identifiers && (x == StartMarker(delimiter, i, markdown) || x == EndMarker(delimiter, i));
      MarkersAreDelimited(delimiter, i, markdown);
    }
    forall x, y | IsMarker(all, x) && IsMarker(all, y) ensures Apart(x, y) {
      if x <= y {
        WrittenMarkersDiffer(x, y, delimiter, identifiers, markdown);
      } else if y <= x {
        WrittenMarkersDiffer(y, x, delimiter, identifiers, markdown);
      }
      DelimitedMarkersAreApart(x, y, delimiter[0], count);
    }
  }
}
