/**
 * The pure part of the events service: the SPARQL query that asks Wikidata
 * for the details of a list of events, and the conversion of a WKT
 * `Point(x y)` literal into a (latitude, longitude) pair.
 */
module EventsService {
  import opened Wrappers
  import opened Text

  // ---------------------------------------------------------------------
  // buildDetailsQuery
  // ---------------------------------------------------------------------

  /** The SELECT clause and the opening of the WHERE block (lines 8-13 of the template). */
  const SelectClause: string :=
    "\n" +
    "    SELECT ?event (CONCAT(\"wd:\", REPLACE(STR(?event), \"^.*Q\", \"Q\")) AS ?eventId) ?eventLabel ?eventDescription\n" +
    "           ?startDate ?endDate\n" +
    "           ?location (CONCAT(\"wd:\", REPLACE(STR(?location), \"^.*Q\", \"Q\")) AS ?locationId)\n" +
    "           ?locationLabel ?coordinate ?image\n" +
    "           ?eventArticle ?eventImage\n" +
    "    WHERE {\n"

  /** The VALUES line up to the event ids. */
  const ValuesOpen: string := "      VALUES ?event { "

  /** The VALUES line after the event ids. */
  const ValuesClose: string := " }\n"

  /** The optional patterns, the label service and the end of the WHERE block. */
  const PatternClauses: string :=
    "\n" +
    "      OPTIONAL { ?event wdt:P585 ?startDate. }       # point in time\n" +
    "      OPTIONAL { ?event wdt:P582 ?endDate. }         # end date\n" +
    "      OPTIONAL { ?event wdt:P276 ?location. }        # location\n" +
    "      OPTIONAL { ?event wdt:P18 ?eventImage. }       # image of the event\n" +
    "      OPTIONAL { ?location wdt:P625 ?coordinate. }   # coordinate location\n" +
    "      OPTIONAL { ?location wdt:P18 ?image. }         # image of the location\n" +
    "\n" +
    "      OPTIONAL {\n" +
    "        ?eventArticle schema:about ?event ;\n" +
    "                      schema:isPartOf <https://en.wikipedia.org/> .\n" +
    "      }\n" +
    "\n" +
    "      SERVICE wikibase:label { bd:serviceParam wikibase:language \"[AUTO_LANGUAGE],en\". }\n" +
    "    }\n" +
    "  "

  /** The template up to the VALUES list. */
  const QueryHead: string := SelectClause + ValuesOpen

  /** The template after the VALUES list. */
  const QueryTail: string := ValuesClose + PatternClauses

  /**
   * The text of the VALUES list of a query built from the template, or None
   * when `q` does not have the template around it.
   */
  function ValuesList(q: string): (v: Option<string>)
    ensures v.Some? ==> q == QueryHead + v.value + QueryTail
  {
    Unwrap(q, QueryHead, QueryTail)
  }

  /**
   * The SPARQL query for the details of the events `ids`: the template with
   * the ids, joined by single spaces, as the VALUES list. Nothing is checked
   * and nothing can fail; an empty list gives an empty VALUES list.
   */
  function BuildDetailsQuery(ids: seq<string>): (q: string)
    ensures ValuesList(q) == Some(Join(ids, " "))
  {
    UnwrapWrapped(QueryHead, Join(ids, " "), QueryTail);
    QueryHead + Join(ids, " ") + QueryTail
  }

  /** The template head ends with the VALUES keyword, the variable and the opening `{ `. */
  lemma ValuesOpening()
    ensures |QueryHead| >= 16 && OccursAt(QueryHead, "VALUES ?event { ", |QueryHead| - 16)
    ensures OccursAt(QueryHead, "{ ", |QueryHead| - 2)
  {
    ValuesOpenKeyword();
    OccursAtConcat(SelectClause, ValuesOpen, "VALUES ?event { ", 6);
    OccursAtConcat(SelectClause, ValuesOpen, "{ ", 20);
  }

  /** The VALUES line opens with the keyword, the variable and `{ `. */
  lemma ValuesOpenKeyword()
    ensures OccursAt(ValuesOpen, "VALUES ?event { ", 6)
    ensures OccursAt(ValuesOpen, "{ ", 20)
  {
  }

  /** The template tail starts with the closing ` }` of the VALUES list. */
  lemma ValuesClosing()
    ensures OccursAt(QueryTail, " }", 0)
  {
    assert OccursAt(ValuesClose, " }", 0);
    OccursAtConcat(ValuesClose, PatternClauses, " }", 0);
  }

  /**
   * A text is a query this service can produce exactly when it has the
   * template around it: any VALUES text is the join of its own space-split
   * tokens.
   */
  lemma {:induction false} BuildDetailsQueryImage(q: string)
    ensures ValuesList(q).Some? <==> exists ids :: BuildDetailsQuery(ids) == q
  {
    if ValuesList(q).Some? {
      var v := ValuesList(q).value;
      JoinSplit(v, ' ');
      assert BuildDetailsQuery(Split(v, ' ')) == q;
    }
  }

  /**
   * Everything outside the VALUES list is the same for every id list: a
   * query is the fixed head, the joined ids and the fixed tail, so two
   * queries are equal exactly when the joined ids are.
   */
  lemma QueryDependsOnlyOnValues(a: seq<string>, b: seq<string>)
    ensures BuildDetailsQuery(a) == BuildDetailsQuery(b) <==> Join(a, " ") == Join(b, " ")
  {
    var qa, qb := BuildDetailsQuery(a), BuildDetailsQuery(b);
    if qa == qb {
      assert ValuesList(qa) == ValuesList(qb);
    }
  }

  /**
   * With an empty id list the query is the bare template, and its VALUES
   * braces enclose nothing but two spaces.
   */
  lemma EmptyIdList()
    ensures BuildDetailsQuery([]) == QueryHead + QueryTail
    ensures OccursAt(BuildDetailsQuery([]), "VALUES ?event {  }", |QueryHead| - 16)
  {
    ValuesOpening();
    ValuesClosing();
    EmptySlot(QueryHead, QueryTail);
  }

  /** With nothing between them, a head ending in `VALUES ?event { ` and a tail starting with ` }` meet. */
  lemma EmptySlot(head: string, tail: string)
    requires |head| >= 16 && OccursAt(head, "VALUES ?event { ", |head| - 16)
    requires OccursAt(tail, " }", 0)
    ensures head + Join([], " ") + tail == head + tail
    ensures OccursAt(head + Join([], " ") + tail, "VALUES ?event {  }", |head| - 16)
  {
    assert head + Join([], " ") + tail == head + tail;
    OccursAcross(head, tail, "VALUES ?event { ", " }", |head| - 16);
    assert "VALUES ?event { " + " }" == "VALUES ?event {  }";
  }

  /** Element `k` of `ids` stands in `head + Join(ids, " ") + tail` at the start of its slot. */
  lemma SlotOccurs(head: string, ids: seq<string>, tail: string, k: nat)
    requires k < |ids|
    ensures OccursAt(head + Join(ids, " ") + tail, ids[k], |head| + Offset(ids, " ", k))
  {
    JoinAt(ids, " ", k);
    OccursInMiddle(head, Join(ids, " "), tail, ids[k], Offset(ids, " ", k));
  }

  /** Right before element `k`: the `{ ` ending `head` for the first, a single space otherwise. */
  lemma SlotOpening(head: string, ids: seq<string>, tail: string, k: nat)
    requires k < |ids|
    requires |head| >= 2 && OccursAt(head, "{ ", |head| - 2)
    ensures k == 0 ==> OccursAt(head + Join(ids, " ") + tail, "{ ", |head| - 2)
    ensures k > 0 ==> OccursAt(head + Join(ids, " ") + tail, " ", |head| + Offset(ids, " ", k) - 1)
  {
    var j := Join(ids, " ");
    if k == 0 {
      OccursAtConcat(head, j, "{ ", |head| - 2);
      OccursAtConcat(head + j, tail, "{ ", |head| - 2);
    } else {
      JoinSeparatorBefore(ids, " ", k);
      OccursInMiddle(head, j, tail, " ", Offset(ids, " ", k) - 1);
    }
  }

  /** Right after element `k`: a single space, or the ` }` starting `tail` after the last. */
  lemma SlotClosing(head: string, ids: seq<string>, tail: string, k: nat)
    requires k < |ids|
    requires OccursAt(tail, " }", 0)
    ensures k + 1 < |ids| ==> OccursAt(head + Join(ids, " ") + tail, " ", |head| + Offset(ids, " ", k) + |ids[k]|)
    ensures k + 1 < |ids| ==> Offset(ids, " ", k + 1) == Offset(ids, " ", k) + |ids[k]| + 1
    ensures k + 1 == |ids| ==> OccursAt(head + Join(ids, " ") + tail, " }", |head| + Offset(ids, " ", k) + |ids[k]|)
  {
    var j := Join(ids, " ");
    var o := Offset(ids, " ", k) + |ids[k]|;
    if k + 1 < |ids| {
      OffsetNext(ids, " ", k);
      JoinSeparatorBefore(ids, " ", k + 1);
      OccursInMiddle(head, j, tail, " ", o);
    } else {
      JoinAt(ids, " ", k);
      OccursAtConcat(head + j, tail, " }", 0);
    }
  }

  /**
   * The ids stand in the query in their original order: id `k` starts at
   * `|QueryHead| + Offset(ids, " ", k)`, the length of the template head
   * plus the lengths of the ids before it, each followed by one space.
   */
  lemma IdOccurs(ids: seq<string>, k: nat)
    requires k < |ids|
    ensures OccursAt(BuildDetailsQuery(ids), ids[k], |QueryHead| + Offset(ids, " ", k))
  {
    SlotOccurs(QueryHead, ids, QueryTail, k);
  }

  /** No stray text before an id: the first follows `{ ` directly, every other a single space. */
  lemma IdOpening(ids: seq<string>, k: nat)
    requires k < |ids|
    ensures k == 0 ==> OccursAt(BuildDetailsQuery(ids), "{ ", |QueryHead| - 2)
    ensures k > 0 ==> OccursAt(BuildDetailsQuery(ids), " ", |QueryHead| + Offset(ids, " ", k) - 1)
  {
    ValuesOpening();
    SlotOpening(QueryHead, ids, QueryTail, k);
  }

  /**
   * No stray text after an id: it is followed by a single space and then
   * directly by the next id, or, for the last, by the closing ` }`.
   */
  lemma IdClosing(ids: seq<string>, k: nat)
    requires k < |ids|
    ensures k + 1 < |ids| ==> OccursAt(BuildDetailsQuery(ids), " ", |QueryHead| + Offset(ids, " ", k) + |ids[k]|)
    ensures k + 1 < |ids| ==> Offset(ids, " ", k + 1) == Offset(ids, " ", k) + |ids[k]| + 1
    ensures k + 1 == |ids| ==> OccursAt(BuildDetailsQuery(ids), " }", |QueryHead| + Offset(ids, " ", k) + |ids[k]|)
  {
    ValuesClosing();
    SlotClosing(QueryHead, ids, QueryTail, k);
  }

  /**
   * Splitting the VALUES text on single spaces gives back the ids, in
   * order, when no id contains a space; an empty id list comes back as one
   * empty token, because splitting the empty text yields `[""]`.
   */
  lemma ValuesSplitRoundTrip(ids: seq<string>)
    requires forall k :: 0 <= k < |ids| ==> ' ' !in ids[k]
    ensures Split(ValuesList(BuildDetailsQuery(ids)).value, ' ') == if ids == [] then [""] else ids
  {
    if ids != [] {
      SplitJoin(ids, ' ');
    } else {
      assert Split("", ' ') == [""];
    }
  }

  /** Different non-empty lists of space-free ids give different queries. */
  lemma QueryInjective(a: seq<string>, b: seq<string>)
    requires a != [] && b != []
    requires forall k :: 0 <= k < |a| ==> ' ' !in a[k]
    requires forall k :: 0 <= k < |b| ==> ' ' !in b[k]
    requires BuildDetailsQuery(a) == BuildDetailsQuery(b)
    ensures a == b
  {
    ValuesSplitRoundTrip(a);
    ValuesSplitRoundTrip(b);
  }

  // ---------------------------------------------------------------------
  // pointStringToLatLngTuple
  // ---------------------------------------------------------------------

  /**
   * The pair handed to the map: element 0 (latitude) comes from the second
   * token and is `undefined` (None) when there is no second token; element 1
   * (longitude) comes from the first token, which always exists.
   */
  datatype LatLngTuple<R> = LatLngTuple(lat: Option<R>, lng: R)

  /** The WKT point literal with the coordinates `coords`, separated by single spaces. */
  function PointLiteral(coords: seq<string>): string {
    "Point(" + Join(coords, " ") + ")"
  }

  /** The input with its first `Point(` and then its first `)` removed. */
  function CleanPoint(point: string): string {
    RemoveFirst(RemoveFirst(point, "Point("), ")")
  }

  /** The cleaned text split on single spaces. */
  function PointTokens(point: string): (tokens: seq<string>)
    ensures |tokens| >= 1
    ensures forall k :: 0 <= k < |tokens| ==> ' ' !in tokens[k]
    ensures Join(tokens, " ") == CleanPoint(point)
  {
    JoinSplit(CleanPoint(point), ' ');
    Split(CleanPoint(point), ' ')
  }

  /**
   * `pointStringToLatLngTuple`, with JavaScript's `Number` abstracted as
   * `toNum`. It has no precondition and raises nothing: malformed input still
   * gives a pair. The longitude is the conversion of the text before the
   * first space of the cleaned input; the latitude is present exactly when
   * the cleaned input contains a space, and is then the conversion of the
   * text between its first and second spaces. Later tokens are ignored.
   */
  function PointStringToLatLngTuple<R>(point: string, toNum: string -> R): (t: LatLngTuple<R>)
    ensures t.lng == toNum(PointTokens(point)[0])
    ensures t.lat.Some? <==> ' ' in CleanPoint(point)
    ensures t.lat.Some? ==> t.lat.value == toNum(PointTokens(point)[1])
  {
    var tokens := PointTokens(point);
    var x := toNum(tokens[0]);
    var y := if |tokens| >= 2 then Some(toNum(tokens[1])) else None;
    LatLngTuple(y, x)
  }

  /** Removing the first `Point(` from a text that starts with it drops the prefix. */
  lemma RemovePointPrefix(rest: string)
    ensures RemoveFirst("Point(" + rest, "Point(") == rest
  {
    var s := "Point(" + rest;
    assert s[..6] == "Point(";
    assert FirstOccurrence(s, "Point(", 0);
    assert s[6..] == rest;
  }

  /**
   * Removing the first `Point(` and then the first `)` from
   * `Point(a)b`, where `a` holds no `)`, leaves `a + b`: any `Point(` or
   * `)` in `b` stays in the text.
   */
  lemma CleanPointFirstOnly(a: string, b: string)
    requires ')' !in a
    ensures CleanPoint("Point(" + a + ")" + b) == a + b
  {
    assert "Point(" + a + ")" + b == "Point(" + (a + [')'] + b);
    RemovePointPrefix(a + [')'] + b);
    RemoveFirstChar(a, ')', b);
  }

  /**
   * The result is determined by the cleaned text: when it is the join of
   * space-free tokens, the second token (if any) is the latitude and the
   * first is the longitude.
   */
  lemma ParseCleanedTokens<R>(point: string, tokens: seq<string>, toNum: string -> R)
    requires |tokens| >= 1
    requires forall k :: 0 <= k < |tokens| ==> ' ' !in tokens[k]
    requires CleanPoint(point) == Join(tokens, " ")
    ensures PointStringToLatLngTuple(point, toNum)
         == LatLngTuple(if |tokens| >= 2 then Some(toNum(tokens[1])) else None, toNum(tokens[0]))
  {
    SplitJoin(tokens, ' ');
    assert PointTokens(point) == tokens;
  }

  /**
   * The round trip with the WKT literal: for coordinates free of spaces and
   * `)`, the result is the conversion of the second coordinate as latitude
   * (absent when there is only one) and of the first as longitude; any
   * further coordinate is ignored.
   */
  lemma {:induction false} ParsePointLiteral<R>(coords: seq<string>, toNum: string -> R)
    requires |coords| >= 1
    requires forall k :: 0 <= k < |coords| ==> ' ' !in coords[k] && ')' !in coords[k]
    ensures PointStringToLatLngTuple(PointLiteral(coords), toNum)
         == LatLngTuple(if |coords| >= 2 then Some(toNum(coords[1])) else None, toNum(coords[0]))
  {
    var j := Join(coords, " ");
    JoinExcludes(coords, ' ', ')');
    CleanPointFirstOnly(j, "");
    assert PointLiteral(coords) == "Point(" + j + ")" + "";
    ParseCleanedTokens(PointLiteral(coords), coords, toNum);
  }

  /** `Point(12.5 7.25)` gives `[7.25, 12.5]`. */
  lemma SwappedExample<R>(toNum: string -> R)
    ensures PointStringToLatLngTuple("Point(12.5 7.25)", toNum) == LatLngTuple(Some(toNum("7.25")), toNum("12.5"))
  {
    var coords := ["12.5", "7.25"];
    assert forall k :: 0 <= k < |coords| ==> ' ' !in coords[k] && ')' !in coords[k] by {}
    assert PointLiteral(coords) == "Point(12.5 7.25)" by {}
    ParsePointLiteral(coords, toNum);
  }

  /** `Point(-3 4)` gives `[4, -3]`. */
  lemma NegativeExample<R>(toNum: string -> R)
    ensures PointStringToLatLngTuple("Point(-3 4)", toNum) == LatLngTuple(Some(toNum("4")), toNum("-3"))
  {
    var coords := ["-3", "4"];
    assert forall k :: 0 <= k < |coords| ==> ' ' !in coords[k] && ')' !in coords[k] by {}
    assert PointLiteral(coords) == "Point(-3 4)" by {}
    ParsePointLiteral(coords, toNum);
  }

  /** A doubled space makes an empty second token, which becomes the latitude. */
  lemma DoubleSpaceExample<R>(toNum: string -> R)
    ensures PointStringToLatLngTuple("Point(1  2)", toNum) == LatLngTuple(Some(toNum("")), toNum("1"))
  {
    var coords := ["1", "", "2"];
    assert forall k :: 0 <= k < |coords| ==> ' ' !in coords[k] && ')' !in coords[k] by {}
    assert PointLiteral(coords) == "Point(1  2)" by {}
    ParsePointLiteral(coords, toNum);
  }

  /** A single coordinate leaves the latitude undefined. */
  lemma SingleTokenExample<R>(toNum: string -> R)
    ensures PointStringToLatLngTuple("Point(5)", toNum) == LatLngTuple(None, toNum("5"))
  {
    var coords := ["5"];
    assert forall k :: 0 <= k < |coords| ==> ' ' !in coords[k] && ')' !in coords[k] by {}
    assert PointLiteral(coords) == "Point(5)" by {}
    ParsePointLiteral(coords, toNum);
  }

  /** Text holding neither `Point(` nor `)` is left as it is before splitting. */
  lemma CleanPointUnmarked(point: string)
    requires Absent(point, "Point(") && ')' !in point
    ensures CleanPoint(point) == point
  {
    forall j: nat | j <= |point| ensures !OccursAt(point, ")", j) {
      OccursAtChar(point, ')', j);
    }
  }

  /**
   * The `Point(` wrapper is not checked for: bare coordinates, free of
   * spaces, `P` and `)`, give the same pair as the WKT literal around them.
   */
  lemma BareCoordinates<R>(coords: seq<string>, toNum: string -> R)
    requires |coords| >= 1
    requires forall k :: 0 <= k < |coords| ==> ' ' !in coords[k] && ')' !in coords[k] && 'P' !in coords[k]
    ensures PointStringToLatLngTuple(Join(coords, " "), toNum) == PointStringToLatLngTuple(PointLiteral(coords), toNum)
  {
    var s := Join(coords, " ");
    JoinExcludes(coords, ' ', ')');
    JoinExcludes(coords, ' ', 'P');
    AbsentByFirstChar(s, "Point(");
    CleanPointUnmarked(s);
    ParseCleanedTokens(s, coords, toNum);
    ParsePointLiteral(coords, toNum);
  }

  /**
   * Only the first `)` is removed: in `Point(x y))` the second `)` stays
   * and ends up in the latitude token.
   */
  lemma ExtraParenKept<R>(x: string, y: string, toNum: string -> R)
    requires ' ' !in x && ')' !in x && ' ' !in y && ')' !in y
    ensures PointStringToLatLngTuple("Point(" + x + " " + y + "))", toNum) == LatLngTuple(Some(toNum(y + ")")), toNum(x))
  {
    var point := "Point(" + x + " " + y + "))";
    var a := x + " " + y;
    var coords := [x, y + ")"];
    assert point == "Point(" + a + ")" + ")";
    assert ')' !in a;
    CleanPointFirstOnly(a, ")");
    assert coords[1..] == [y + ")"];
    assert Join(coords, " ") == a + ")";
    assert ' ' !in coords[1];
    ParseCleanedTokens(point, coords, toNum);
  }
}
