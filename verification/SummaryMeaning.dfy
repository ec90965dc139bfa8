/** What the summary table says of its sources: which rows of which source name a key, and what the first
    or the last of them, in the order of the sources, gives to each column. */
module SummaryMeaning {
  import opened Text
  import opened Seqs
  import opened Summary
  import opened SummaryOffers

  /** A row of one of the five sources, and one of its e-mails. */
  datatype Place = Place(source: nat, row: nat, email: nat)

  const TAGS: seq<string> :=
    ["classification_xlsx", "exact_email_rule", "email_keyword_rule", "tz_topics", "export_rows"]

  predicate At(src: Sources, p: Place) {
    match p.source
    case 0 => p.row < |src.rows| && p.email == 0
    case 1 => p.row < |src.exact| && p.email == 0
    case 2 => p.row < |src.keywords| && p.email == 0
    case 3 => p.row < |src.topics| && p.email < |src.topics[p.row].emails|
    case 4 => p.row < |src.active| && p.email < |src.active[p.row].emails|
    case _ => false
  }

  /** By source, then by row, then by e-mail. */
  predicate Before(p: Place, q: Place) {
    || p.source < q.source
    || (p.source == q.source && p.row < q.row)
    || (p.source == q.source && p.row == q.row && p.email < q.email)
  }

  // ---------------------------------------------------------------- what a row says of a key

  /** The row's own name unless it is the code, else that of the reference tables. */
  function NameSaid(env: Env, code: string, given: string): string {
    if Strip(given) == "" || Strip(given) == code then env.deptName(code) else Strip(given)
  }

  /** The row's own direction, else that of the rules, else that of the active rows. */
  function DirectionSaid(env: Env, code: string, given: string): string {
    if Strip(given) == "" && code !in env.directions then Strip(env.activeDirection(code))
    else if Strip(given) == "" then env.directions[code]
    else Strip(given)
  }

  /** A known organisation the row gives, else that of the e-mail's domain, else the direction where it is
      an organisation, else the one detected. */
  function OrgSaid(env: Env, key: Key, given: string, direction: string): string {
    if env.upper(Strip(given)) in env.labels then env.upper(Strip(given))
    else if env.emailOrg(key.0) == "" && direction !in env.labels then env.detect(key.0, key.1, direction)
    else if env.emailOrg(key.0) == "" then direction
    else env.emailOrg(key.0)
  }

  function OfferFor(env: Env, key: Key, email: string, code: string, name: string, direction: string, org: string,
                    source: string, note: string, outright: Option<string>): Offer
  {
    if key.0 == "" || key.1 == "" || key != (Strip(env.lower(email)), Strip(code)) then Nothing
    else Offer(NameSaid(env, key.1, name), DirectionSaid(env, key.1, direction),
               OrgSaid(env, key, org, DirectionSaid(env, key.1, direction)), source, note, outright)
  }

  function HomeOr(env: Env, direction: string): string {
    if Strip(direction) !in env.labels then "НП" else Strip(direction)
  }

  /** What the row at `p` says of the key. */
  function Says(env: Env, src: Sources, p: Place, key: Key): Offer
    requires At(src, p)
  {
    match p.source
    case 0 =>
      var r := src.rows[p.row];
      if !src.validCode(Strip(r.code)) then Nothing
      else OfferFor(env, key, r.email, r.code, r.name, r.direction, r.org, "classification_xlsx",
                    "лист: " + r.sheet, None)
    case 1 =>
      var r := src.exact[p.row];
      if Strip(r.pattern) == "" then Nothing
      else OfferFor(env, key, Strip(r.pattern), r.code, r.name, r.direction, HomeOr(env, r.direction),
                    "exact_email_rule", r.about, None)
    case 2 =>
      var r := src.keywords[p.row];
      if Strip(r.pattern) == "" then Nothing
      else OfferFor(env, key, "*" + Strip(r.pattern) + "*@turbo-don.ru", r.code, r.name, r.direction,
                    HomeOr(env, r.direction), "email_keyword_rule",
                    "ключевое слово «" + Strip(r.pattern) + "» в локальной части", None)
    case 3 =>
      var r, email := src.topics[p.row], Strip(src.topics[p.row].emails[p.email]);
      if email == "" then Nothing
      else OfferFor(env, key, email, r.code, r.name,
                    if r.code in env.directions then env.directions[r.code] else "", "", "tz_topics", r.note,
                    if key == (env.lower(email), r.code) then Some(env.detectByStructure(email, r.code)) else None)
    case 4 =>
      var r := src.active[p.row];
      OfferFor(env, key, r.emails[p.email], r.code, r.name, r.direction, r.org, "export_rows", "", None)
  }

  // ---------------------------------------------------------------- one row of a source

  function Lookup(m: map<Key, Entry>, key: Key): Option<Entry> {
    if key in m then Some(m[key]) else None
  }

  /** Keys are stripped and not empty. */
  ghost predicate ProperKeys(m: map<Key, Entry>) {
    forall k :: k in m ==> k.0 != "" && k.1 != "" && Strip(k.0) == k.0 && Strip(k.1) == k.1
  }

  function OfferOf(env: Env, key: Key, c: Call, outright: Option<string>): Offer
    requires c.Upsert?
  {
    OfferFor(env, key, c.email, c.code, c.name, c.direction, c.org, c.source, c.note, outright)
  }

  lemma UpsertTakes(env: Env, m: map<Key, Entry>, c: Call, key: Key)
    requires c.Upsert? && ProperKeys(m)
    ensures Lookup(Called(env, m, c), key) == Taken(env, Lookup(m, key), OfferOf(env, key, c, None))
    ensures ProperKeys(Called(env, m, c))
  {
    StripIdempotent(env.lower(c.email));
    StripIdempotent(c.code);
  }

  /** A structure override finds its row if and only if its key is stripped. */
  lemma OverrideTakes(env: Env, m: map<Key, Entry>, c: Call, org: string, key: Key)
    requires c.Upsert? && ProperKeys(m)
    ensures var k := (env.lower(c.email), c.code);
      var after := Called(env, Called(env, m, c), Override(k, org));
      && Lookup(after, key) == Taken(env, Lookup(m, key), OfferOf(env, key, c, if key == k then Some(org) else None))
      && ProperKeys(after)
  {
    UpsertTakes(env, m, c, key);
  }

  function Block(env: Env, src: Sources, p: Place): seq<Call>
    requires At(src, p)
  {
    match p.source
    case 0 => RowCalls(src, src.rows[p.row])
    case 1 => ExactCalls(env, src.exact[p.row])
    case 2 => KeywordCalls(env, src.keywords[p.row])
    case 3 => TopicEmailCalls(env, src.topics[p.row], src.topics[p.row].emails[p.email])
    case 4 => FromActiveEmails(src.active[p.row])(src.active[p.row].emails[p.email])
  }

  function CalledOn(env: Env, m: map<Key, Entry>, block: seq<Call>): map<Key, Entry>
    requires |block| <= 2
  {
    if block == [] then m
    else if |block| == 1 then Called(env, m, block[0])
    else Called(env, Called(env, m, block[0]), block[1])
  }

  /** A row that makes one call says what that call offers; a row that makes none says nothing. */
  ghost predicate SaysItsCall(env: Env, src: Sources, p: Place, key: Key)
    requires At(src, p)
  {
    var block := Block(env, src, p);
    || (block == [] && Says(env, src, p, key) == Nothing)
    || (|block| == 1 && block[0].Upsert? && Says(env, src, p, key) == OfferOf(env, key, block[0], None))
  }

  lemma SheetSays(env: Env, src: Sources, p: Place, key: Key)
    requires At(src, p) && p.source == 0
    ensures SaysItsCall(env, src, p, key)
  {
    StripIdempotent(src.rows[p.row].code);
  }

  lemma ExactSays(env: Env, src: Sources, p: Place, key: Key)
    requires At(src, p) && p.source == 1
    ensures SaysItsCall(env, src, p, key)
  {
    StripIdempotent(src.exact[p.row].code);
    StripIdempotent(src.exact[p.row].direction);
  }

  lemma KeywordSays(env: Env, src: Sources, p: Place, key: Key)
    requires At(src, p) && p.source == 2
    ensures SaysItsCall(env, src, p, key)
  {
    StripIdempotent(src.keywords[p.row].code);
    StripIdempotent(src.keywords[p.row].direction);
  }

  lemma TopicTakes(env: Env, src: Sources, p: Place, m: map<Key, Entry>, key: Key)
    requires At(src, p) && p.source == 3 && ProperKeys(m)
    ensures |Block(env, src, p)| <= 2
    ensures var after := CalledOn(env, m, Block(env, src, p));
      Lookup(after, key) == Taken(env, Lookup(m, key), Says(env, src, p, key)) && ProperKeys(after)
  {
    var block, r, email := Block(env, src, p), src.topics[p.row], Strip(src.topics[p.row].emails[p.email]);
    if email != "" { OverrideTakes(env, m, block[0], env.detectByStructure(email, r.code), key); }
  }

  lemma BlockTakes(env: Env, src: Sources, p: Place, m: map<Key, Entry>, key: Key)
    requires At(src, p) && ProperKeys(m)
    ensures |Block(env, src, p)| <= 2
    ensures var after := CalledOn(env, m, Block(env, src, p));
      Lookup(after, key) == Taken(env, Lookup(m, key), Says(env, src, p, key)) && ProperKeys(after)
  {
    if p.source == 3 {
      TopicTakes(env, src, p, m, key);
    } else {
      match p.source {
        case 0 => SheetSays(env, src, p, key);
        case 1 => ExactSays(env, src, p, key);
        case 2 => KeywordSays(env, src, p, key);
        case 4 =>
      }
      assert SaysItsCall(env, src, p, key);
      if Block(env, src, p) != [] { UpsertTakes(env, m, Block(env, src, p)[0], key); }
    }
  }

  // ---------------------------------------------------------------- the rows of all sources, in order

  function RowCount(src: Sources, source: nat): nat {
    match source
    case 0 => |src.rows|
    case 1 => |src.exact|
    case 2 => |src.keywords|
    case 3 => |src.topics|
    case 4 => |src.active|
    case _ => 0
  }

  function EmailCount(src: Sources, source: nat, row: nat): nat
    requires row < RowCount(src, source)
  {
    match source
    case 3 => |src.topics[row].emails|
    case 4 => |src.active[row].emails|
    case _ => 1
  }

  function RowPlaces(source: nat, row: nat, n: nat): seq<Place> {
    seq(n, j requires 0 <= j => Place(source, row, j))
  }

  function SourcePlaces(src: Sources, source: nat, n: nat): seq<Place>
    requires n <= RowCount(src, source)
  {
    if n == 0 then []
    else SourcePlaces(src, source, n - 1) + RowPlaces(source, n - 1, EmailCount(src, source, n - 1))
  }

  function PlacesTo(src: Sources, source: nat): seq<Place> {
    if source == 0 then []
    else PlacesTo(src, source - 1) + SourcePlaces(src, source - 1, RowCount(src, source - 1))
  }

  /** The rows of the sources, each once, in order. */
  ghost predicate Lists(src: Sources, places: seq<Place>) {
    && (forall p :: p in places <==> At(src, p))
    && (forall i, j :: 0 <= i < j < |places| ==> Before(places[i], places[j]))
  }

  ghost predicate AscendingPlaces(places: seq<Place>) {
    forall i, j :: 0 <= i < j < |places| ==> Before(places[i], places[j])
  }

  lemma AscendingConcat(a: seq<Place>, b: seq<Place>)
    requires AscendingPlaces(a) && AscendingPlaces(b)
    requires forall p, q :: p in a && q in b ==> Before(p, q)
    ensures AscendingPlaces(a + b)
  {
  }

  lemma {:induction false} SourcePlacesList(src: Sources, source: nat, n: nat)
    requires source < 5 && n <= RowCount(src, source)
    ensures var places := SourcePlaces(src, source, n);
      && (forall p :: p in places <==> At(src, p) && p.source == source && p.row < n)
      && AscendingPlaces(places)
  {
    if n > 0 {
      SourcePlacesList(src, source, n - 1);
      var last := RowPlaces(source, n - 1, EmailCount(src, source, n - 1));
      RowPlacesList(src, source, n - 1);
      AscendingConcat(SourcePlaces(src, source, n - 1), last);
    }
  }

  lemma RowPlacesList(src: Sources, source: nat, row: nat)
    requires source < 5 && row < RowCount(src, source)
    ensures var places := RowPlaces(source, row, EmailCount(src, source, row));
      && (forall p :: p in places <==> At(src, p) && p.source == source && p.row == row)
      && AscendingPlaces(places)
  {
    var places := RowPlaces(source, row, EmailCount(src, source, row));
    forall p | At(src, p) && p.source == source && p.row == row ensures p in places {
      assert places[p.email] == p;
    }
  }

  lemma {:induction false} PlacesList(src: Sources, source: nat)
    requires source <= 5
    ensures var places := PlacesTo(src, source);
      (forall p :: p in places <==> At(src, p) && p.source < source) && AscendingPlaces(places)
  {
    if source > 0 {
      PlacesList(src, source - 1);
      SourcePlacesList(src, source - 1, RowCount(src, source - 1));
      AscendingConcat(PlacesTo(src, source - 1), SourcePlaces(src, source - 1, RowCount(src, source - 1)));
    }
  }

  lemma PlacesAreListed(src: Sources)
    ensures Lists(src, PlacesTo(src, 5))
  {
    PlacesList(src, 5);
  }

  // ---------------------------------------------------------------- the calls, row by row

  function BlockAt(env: Env, src: Sources): Place -> seq<Call> {
    p => if At(src, p) then Block(env, src, p) else []
  }

  lemma RowAdds(env: Env, src: Sources, source: nat, base: seq<Call>, row: nat, calls: seq<Call>)
    requires row < RowCount(src, source) && RowIsItsPlaces(env, src, source, row, calls)
    ensures Collect(base, SourcePlaces(src, source, row + 1), BlockAt(env, src))
         == Collect(base, SourcePlaces(src, source, row), BlockAt(env, src)) + calls
  {
    var a, b := SourcePlaces(src, source, row), RowPlaces(source, row, EmailCount(src, source, row));
    var g := BlockAt(env, src);
    assert SourcePlaces(src, source, row + 1) == a + b;
    CollectConcat(base, a, b, g, |b|);
    CollectBase(Collect(base, a, g), b, g, |b|);
  }

  /** The calls of one source are those of its places, where a row's are. */
  lemma {:induction false} SourceCalls<R>(env: Env, src: Sources, source: nat, base: seq<Call>, rows: seq<R>,
                                          f: R -> seq<Call>, n: nat)
    requires n <= |rows| == RowCount(src, source)
    requires forall i: nat :: i < |rows| ==> RowIsItsPlaces(env, src, source, i, f(rows[i]))
    ensures Collect(base, SourcePlaces(src, source, n), BlockAt(env, src)) == CollectFrom(base, rows, f, n)
  {
    if n > 0 {
      SourceCalls(env, src, source, base, rows, f, n - 1);
      RowAdds(env, src, source, base, n - 1, f(rows[n - 1]));
    }
  }

  ghost predicate RowIsItsPlaces(env: Env, src: Sources, source: nat, row: nat, calls: seq<Call>)
    requires row < RowCount(src, source)
  {
    calls == Collect([], RowPlaces(source, row, EmailCount(src, source, row)), BlockAt(env, src))
  }

  lemma OnePlace(env: Env, src: Sources, source: nat, row: nat)
    requires source < 3 && row < RowCount(src, source)
    ensures RowIsItsPlaces(env, src, source, row, Block(env, src, Place(source, row, 0)))
  {
    var places := RowPlaces(source, row, 1);
    assert CollectFrom([], places, BlockAt(env, src), 0) == [];
  }

  lemma {:induction false} EmailPlaces(env: Env, src: Sources, source: nat, row: nat, emails: seq<string>,
                                       f: string -> seq<Call>, n: nat)
    requires 3 <= source < 5 && row < RowCount(src, source) && n <= |emails| == EmailCount(src, source, row)
    requires forall j: nat :: j < |emails| ==> Block(env, src, Place(source, row, j)) == f(emails[j])
    ensures CollectFrom([], RowPlaces(source, row, |emails|), BlockAt(env, src), n) == CollectFrom([], emails, f, n)
  {
    if n > 0 { EmailPlaces(env, src, source, row, emails, f, n - 1); }
  }

  lemma TopicPlaces(env: Env, src: Sources, i: nat)
    requires i < |src.topics|
    ensures RowIsItsPlaces(env, src, 3, i, FromTopics(env)(src.topics[i]))
  {
    EmailPlaces(env, src, 3, i, src.topics[i].emails, FromTopicEmails(env, src.topics[i]), |src.topics[i].emails|);
  }

  lemma ActivePlaces(env: Env, src: Sources, i: nat)
    requires i < |src.active|
    ensures RowIsItsPlaces(env, src, 4, i, ActiveCalls(src.active[i]))
  {
    EmailPlaces(env, src, 4, i, src.active[i].emails, FromActiveEmails(src.active[i]), |src.active[i].emails|);
  }

  /** All calls, as the calls of the places in order. */
  lemma CallsOfPlaces(env: Env, src: Sources)
    ensures AllCalls(env, src) == Collect([], PlacesTo(src, 5), BlockAt(env, src))
  {
    var g := BlockAt(env, src);
    forall i: nat | i < |src.rows| ensures RowIsItsPlaces(env, src, 0, i, FromRows(src)(src.rows[i])) {
      OnePlace(env, src, 0, i);
    }
    forall i: nat | i < |src.exact| ensures RowIsItsPlaces(env, src, 1, i, FromExact(env)(src.exact[i])) {
      OnePlace(env, src, 1, i);
    }
    forall i: nat | i < |src.keywords| ensures RowIsItsPlaces(env, src, 2, i, FromKeywords(env)(src.keywords[i])) {
      OnePlace(env, src, 2, i);
    }
    forall i: nat | i < |src.topics| ensures RowIsItsPlaces(env, src, 3, i, FromTopics(env)(src.topics[i])) {
      TopicPlaces(env, src, i);
    }
    forall i: nat | i < |src.active| ensures RowIsItsPlaces(env, src, 4, i, ActiveCalls(src.active[i])) {
      ActivePlaces(env, src, i);
    }
    var a := Collect([], src.rows, FromRows(src));
    var b := Collect(a, src.exact, FromExact(env));
    var c := Collect(b, src.keywords, FromKeywords(env));
    var d := Collect(c, src.topics, FromTopics(env));
    SourceAdds(env, src, 0, [], src.rows, FromRows(src));
    SourceAdds(env, src, 1, a, src.exact, FromExact(env));
    SourceAdds(env, src, 2, b, src.keywords, FromKeywords(env));
    SourceAdds(env, src, 3, c, src.topics, FromTopics(env));
    SourceAdds(env, src, 4, d, src.active, ActiveCalls);
  }

  lemma SourceAdds<R>(env: Env, src: Sources, source: nat, made: seq<Call>, rows: seq<R>, f: R -> seq<Call>)
    requires |rows| == RowCount(src, source) && made == Collect([], PlacesTo(src, source), BlockAt(env, src))
    requires forall i: nat :: i < |rows| ==> RowIsItsPlaces(env, src, source, i, f(rows[i]))
    ensures Collect(made, rows, f) == Collect([], PlacesTo(src, source + 1), BlockAt(env, src))
  {
    var more := SourcePlaces(src, source, RowCount(src, source));
    SourceCalls(env, src, source, made, rows, f, |rows|);
    CollectConcat([], PlacesTo(src, source), more, BlockAt(env, src), |more|);
  }

  // ---------------------------------------------------------------- the table

  function OffersFor(env: Env, src: Sources, places: seq<Place>, key: Key): seq<Offer>
    requires forall i :: 0 <= i < |places| ==> At(src, places[i])
  {
    seq(|places|, i requires 0 <= i < |places| => Says(env, src, places[i], key))
  }

  lemma TwoCalls(env: Env, calls: seq<Call>, block: seq<Call>)
    requires |block| <= 2
    ensures CalledTo(env, calls + block, |calls + block|) == CalledOn(env, CalledTo(env, calls, |calls|), block)
  {
    if block == [] {
      assert calls + block == calls;
    } else if |block| == 1 {
      assert calls + block == calls + [block[0]];
      CallsSnoc(env, calls, block[0]);
    } else {
      assert calls + block == calls + [block[0]] + [block[1]];
      CallsSnoc(env, calls, block[0]);
      CallsSnoc(env, calls + [block[0]], block[1]);
    }
  }

  /** The tables before, between and after the blocks. */
  ghost predicate Chain(env: Env, tables: seq<map<Key, Entry>>, blocks: seq<seq<Call>>) {
    && |tables| == |blocks| + 1 && tables[0] == map[]
    && forall i: nat :: i < |blocks| ==> Linked(env, tables[i], blocks[i], tables[i + 1])
  }

  ghost predicate Linked(env: Env, before: map<Key, Entry>, block: seq<Call>, after: map<Key, Entry>) {
    |block| <= 2 && after == CalledOn(env, before, block)
  }

  /** Whatever the table, the block does to the row of the key what the offer does. */
  ghost predicate BlockOffers(env: Env, block: seq<Call>, key: Key, o: Offer) {
    forall m, after :: ProperKeys(m) && Linked(env, m, block, after) ==>
      ProperKeys(after) && Lookup(after, key) == Taken(env, Lookup(m, key), o)
  }

  lemma LinkFollows(env: Env, before: map<Key, Entry>, block: seq<Call>, after: map<Key, Entry>, key: Key, o: Offer)
    requires Linked(env, before, block, after) && BlockOffers(env, block, key, o) && ProperKeys(before)
    ensures ProperKeys(after) && Lookup(after, key) == Taken(env, Lookup(before, key), o)
  {
  }

  ghost predicate EachOffers(env: Env, blocks: seq<seq<Call>>, key: Key, offers: seq<Offer>) {
    |blocks| == |offers| && forall i: nat :: i < |blocks| ==> BlockOffers(env, blocks[i], key, offers[i])
  }

  lemma LinkAt(env: Env, tables: seq<map<Key, Entry>>, blocks: seq<seq<Call>>, key: Key, offers: seq<Offer>, n: nat)
    requires Chain(env, tables, blocks) && EachOffers(env, blocks, key, offers) && 0 < n <= |blocks|
    requires ProperKeys(tables[n - 1])
    ensures ProperKeys(tables[n]) && Lookup(tables[n], key) == Taken(env, Lookup(tables[n - 1], key), offers[n - 1])
  {
    assert Linked(env, tables[n - 1], blocks[n - 1], tables[n - 1 + 1]);
    LinkFollows(env, tables[n - 1], blocks[n - 1], tables[n], key, offers[n - 1]);
  }

  lemma {:induction false} ChainIsProper(env: Env, tables: seq<map<Key, Entry>>, blocks: seq<seq<Call>>, key: Key,
                                         offers: seq<Offer>, n: nat)
    requires Chain(env, tables, blocks) && EachOffers(env, blocks, key, offers) && n <= |blocks|
    ensures ProperKeys(tables[n])
  {
    if n > 0 {
      ChainIsProper(env, tables, blocks, key, offers, n - 1);
      LinkAt(env, tables, blocks, key, offers, n);
    }
  }

  lemma RowLinks(env: Env, tables: seq<map<Key, Entry>>, blocks: seq<seq<Call>>, key: Key, offers: seq<Offer>, n: nat)
    requires Chain(env, tables, blocks) && EachOffers(env, blocks, key, offers) && 0 < n <= |blocks|
    ensures Lookup(tables[n], key) == Taken(env, Lookup(tables[n - 1], key), offers[n - 1])
  {
    ChainIsProper(env, tables, blocks, key, offers, n - 1);
    LinkAt(env, tables, blocks, key, offers, n);
  }

  /** The row of the key after each block, along the tables. */
  ghost predicate RowsAlong(env: Env, tables: seq<map<Key, Entry>>, key: Key, offers: seq<Offer>) {
    && |tables| == |offers| + 1 && Lookup(tables[0], key) == None
    && forall n: nat :: 0 < n <= |offers| ==>
         Lookup(tables[n], key) == Taken(env, Lookup(tables[n - 1], key), offers[n - 1])
  }

  lemma {:induction false} RowsFollow(env: Env, tables: seq<map<Key, Entry>>, key: Key, offers: seq<Offer>, n: nat)
    requires RowsAlong(env, tables, key, offers) && n <= |offers|
    ensures Lookup(tables[n], key) == RowAfter(env, offers, n)
  {
    if n > 0 { RowsFollow(env, tables, key, offers, n - 1); }
  }

  lemma ChainFollows(env: Env, tables: seq<map<Key, Entry>>, blocks: seq<seq<Call>>, key: Key, offers: seq<Offer>)
    requires Chain(env, tables, blocks) && EachOffers(env, blocks, key, offers)
    ensures Lookup(tables[|blocks|], key) == RowAfter(env, offers, |blocks|)
  {
    forall n: nat | 0 < n <= |offers|
      ensures Lookup(tables[n], key) == Taken(env, Lookup(tables[n - 1], key), offers[n - 1])
    {
      RowLinks(env, tables, blocks, key, offers, n);
    }
    RowsFollow(env, tables, key, offers, |offers|);
  }

  lemma ChainNext(env: Env, tables: seq<map<Key, Entry>>, blocks: seq<seq<Call>>, block: seq<Call>)
    requires Chain(env, tables, blocks) && |block| <= 2
    ensures Chain(env, tables + [CalledOn(env, tables[|blocks|], block)], blocks + [block])
  {
    var after := CalledOn(env, tables[|blocks|], block);
    assert Linked(env, tables[|blocks|], block, after);
    forall i: nat | i < |blocks + [block]|
      ensures Linked(env, (tables + [after])[i], (blocks + [block])[i], (tables + [after])[i + 1])
    {
      if i < |blocks| { assert Linked(env, tables[i], blocks[i], tables[i + 1]); }
    }
  }

  function Blocks(env: Env, src: Sources, places: seq<Place>): seq<seq<Call>> {
    Map(places, BlockAt(env, src))
  }

  lemma BlocksAreShort(env: Env, src: Sources, p: Place)
    ensures |BlockAt(env, src)(p)| <= 2
  {
  }

  lemma Snoc<T>(s: seq<T>, n: nat)
    requires 0 < n <= |s|
    ensures s[..n] == s[..n - 1] + [s[n - 1]]
  {
  }

  lemma {:induction false} ChainOf(env: Env, src: Sources, places: seq<Place>, n: nat)
    returns (tables: seq<map<Key, Entry>>)
    requires n <= |places|
    ensures Chain(env, tables, Blocks(env, src, places)[..n])
    ensures var calls := CollectFrom([], places, BlockAt(env, src), n); tables[n] == CalledTo(env, calls, |calls|)
  {
    if n == 0 {
      tables := [map[]];
    } else {
      tables := ChainOf(env, src, places, n - 1);
      var blocks, block := Blocks(env, src, places), BlockAt(env, src)(places[n - 1]);
      BlocksAreShort(env, src, places[n - 1]);
      ChainNext(env, tables, blocks[..n - 1], block);
      TwoCalls(env, CollectFrom([], places, BlockAt(env, src), n - 1), block);
      Snoc(blocks, n);
      tables := tables + [CalledOn(env, tables[n - 1], block)];
    }
  }

  lemma PlaceOffers(env: Env, src: Sources, p: Place, key: Key)
    requires At(src, p)
    ensures BlockOffers(env, BlockAt(env, src)(p), key, Says(env, src, p, key))
  {
    var block := Block(env, src, p);
    BlocksAreShort(env, src, p);
    forall m, after | ProperKeys(m) && Linked(env, m, block, after)
      ensures ProperKeys(after) && Lookup(after, key) == Taken(env, Lookup(m, key), Says(env, src, p, key))
    {
      BlockTakes(env, src, p, m, key);
    }
  }

  lemma TableFollows(env: Env, src: Sources, places: seq<Place>, key: Key)
    requires forall i :: 0 <= i < |places| ==> At(src, places[i])
    ensures var calls := Collect([], places, BlockAt(env, src));
      Lookup(CalledTo(env, calls, |calls|), key) == RowAfter(env, OffersFor(env, src, places, key), |places|)
  {
    var tables := ChainOf(env, src, places, |places|);
    var blocks, offers := Blocks(env, src, places), OffersFor(env, src, places, key);
    assert blocks[..|places|] == blocks;
    forall i: nat | i < |blocks| ensures BlockOffers(env, blocks[i], key, offers[i]) {
      PlaceOffers(env, src, places[i], key);
    }
    ChainFollows(env, tables, blocks, key, offers);
  }

  /** The key has a row if and only if a row of a source names it, and its row says what those rows say, in
      the order of the sources. */
  ghost predicate KeyTold(env: Env, src: Sources, places: seq<Place>, key: Key, table: map<Key, Entry>)
    requires Lists(src, places)
  {
    && (key in table <==> exists p :: Names(env, src, p, key))
    && (key in table ==> RowSays(env, OffersFor(env, src, places, key), |places|, table[key])
                         && TagsTold(env, src, key, table[key].sources))
  }

  ghost predicate Names(env: Env, src: Sources, p: Place, key: Key) {
    At(src, p) && Says(env, src, p, key).Offer?
  }

  /** A tag is there if and only if its source names the key, and the tags come in the order of the sources. */
  ghost predicate TagsTold(env: Env, src: Sources, key: Key, sources: seq<string>) {
    && (forall k :: 0 <= k < 5 ==> (TAGS[k] in sources <==> exists p :: Names(env, src, p, key) && p.source == k))
    && (forall x :: 0 <= x < |sources| ==> sources[x] in TAGS)
    && (forall x, y :: 0 <= x < y < |sources| ==> InOrder(sources[x], sources[y]))
  }

  predicate InOrder(s: string, t: string) {
    exists a, b :: 0 <= a < b < 5 && TAGS[a] == s && TAGS[b] == t
  }

  lemma TagOf(env: Env, src: Sources, p: Place, key: Key)
    requires Names(env, src, p, key)
    ensures p.source < 5 && Says(env, src, p, key).source == TAGS[p.source]
  {
  }

  lemma TagsDiffer(a: nat, b: nat)
    requires a < 5 && b < 5 && TAGS[a] == TAGS[b]
    ensures a == b
  {
    assert |TAGS[0]| == 19 && |TAGS[1]| == 16 && |TAGS[2]| == 18 && |TAGS[3]| == 9 && |TAGS[4]| == 11;
  }

  lemma SomeNames(env: Env, src: Sources, places: seq<Place>, key: Key)
    requires Lists(src, places)
    ensures SomeOffer(OffersFor(env, src, places, key), |places|) <==> exists p :: Names(env, src, p, key)
  {
    var offers := OffersFor(env, src, places, key);
    if p :| Names(env, src, p, key) {
      var i :| 0 <= i < |places| && places[i] == p;
      assert offers[i].Offer?;
    }
    if SomeOffer(offers, |places|) {
      var i :| 0 <= i < |places| && offers[i].Offer?;
      assert Names(env, src, places[i], key);
    }
  }

  lemma TagIsThere(env: Env, src: Sources, places: seq<Place>, key: Key, sources: seq<string>, k: nat)
    requires Lists(src, places) && SourcesInOrder(OffersFor(env, src, places, key), |places|, sources) && k < 5
    ensures TAGS[k] in sources <==> exists p :: Names(env, src, p, key) && p.source == k
  {
    var offers := OffersFor(env, src, places, key);
    if p :| Names(env, src, p, key) && p.source == k {
      var i :| 0 <= i < |places| && places[i] == p;
      TagOf(env, src, p, key);
      assert offers[i].Offer? && offers[i].source in sources;
    }
    if TAGS[k] in sources {
      assert OfferedBy(offers, |places|, TAGS[k]);
      var i :| 0 <= i < |places| && offers[i].Offer? && offers[i].source == TAGS[k];
      TagOf(env, src, places[i], key);
      TagsDiffer(k, places[i].source);
      assert Names(env, src, places[i], key);
    }
  }

  lemma TagIsKnown(env: Env, src: Sources, places: seq<Place>, key: Key, source: string)
    requires Lists(src, places) && OfferedBy(OffersFor(env, src, places, key), |places|, source)
    ensures source in TAGS
  {
    var offers := OffersFor(env, src, places, key);
    var i :| 0 <= i < |places| && offers[i].Offer? && offers[i].source == source;
    TagOf(env, src, places[i], key);
  }

  lemma TagsInOrder(env: Env, src: Sources, places: seq<Place>, key: Key, a: string, b: string)
    requires Lists(src, places) && OfferedInOrder(OffersFor(env, src, places, key), |places|, a, b) && a != b
    ensures InOrder(a, b)
  {
    var offers := OffersFor(env, src, places, key);
    var i, j :| 0 <= i < j < |places| && offers[i].Offer? && offers[j].Offer? && offers[i].source == a
                && offers[j].source == b;
    TagOf(env, src, places[i], key);
    TagOf(env, src, places[j], key);
    assert Before(places[i], places[j]);
  }

  lemma TagsAreTold(env: Env, src: Sources, places: seq<Place>, key: Key, sources: seq<string>)
    requires Lists(src, places) && SourcesInOrder(OffersFor(env, src, places, key), |places|, sources)
    ensures TagsTold(env, src, key, sources)
  {
    forall k | 0 <= k < 5 ensures TAGS[k] in sources <==> exists p :: Names(env, src, p, key) && p.source == k {
      TagIsThere(env, src, places, key, sources, k);
    }
    forall x | 0 <= x < |sources| ensures sources[x] in TAGS { TagIsKnown(env, src, places, key, sources[x]); }
    forall x, y | 0 <= x < y < |sources| ensures InOrder(sources[x], sources[y]) {
      TagsInOrder(env, src, places, key, sources[x], sources[y]);
    }
  }

  lemma KeyIsTold(env: Env, src: Sources, key: Key)
    requires Lists(src, PlacesTo(src, 5))
    ensures var calls := AllCalls(env, src);
      KeyTold(env, src, PlacesTo(src, 5), key, CalledTo(env, calls, |calls|))
  {
    var places := PlacesTo(src, 5);
    CallsOfPlaces(env, src);
    TableFollows(env, src, places, key);
    RowTellsOffers(env, OffersFor(env, src, places, key), |places|);
    SomeNames(env, src, places, key);
    var calls := AllCalls(env, src);
    var table := CalledTo(env, calls, |calls|);
    if key in table { TagsAreTold(env, src, places, key, table[key].sources); }
  }

  /** Every key is told by the rows of the sources. */
  ghost predicate TableTold(env: Env, src: Sources, table: map<Key, Entry>) {
    exists places :: Lists(src, places) && forall key :: KeyTold(env, src, places, key, table)
  }

  /** The table of a build. */
  lemma BuiltTableIsTold(env: Env, src: Sources)
    ensures var calls := AllCalls(env, src); TableTold(env, src, CalledTo(env, calls, |calls|))
  {
    var calls, places := AllCalls(env, src), PlacesTo(src, 5);
    PlacesAreListed(src);
    forall key ensures KeyTold(env, src, places, key, CalledTo(env, calls, |calls|)) { KeyIsTold(env, src, key); }
  }
}
