/**
 * The pure parts of the summary-list hook (app/hooks/useSummaries.ts): the
 * list update `addSummary`, the choice of owner filter for the query and the
 * way `fetchSummaries` turns the query's outcome into the list it shows.
 *
 * The table is a sequence of stored rows; the database's answer to a query
 * is an input. Ordering by `created_at` is the database's business and is
 * not modelled: an honest answer lists the selected rows in table order.
 */
module Summaries {
  import opened Types
  import AnalyzeRoute

  /** `setSummaries(prev => [newSummary, ...prev])` */
  function AddSummary<T>(list: seq<T>, s: T): (r: seq<T>)
    ensures |r| == |list| + 1 && r[0] == s
    ensures forall i :: 0 <= i < |list| ==> r[i + 1] == list[i]
  {
    [s] + list
  }

  /** Removing the new head gives back the list as it was. */
  lemma AddSummaryKeepsPrevious<T>(list: seq<T>, s: T)
    ensures AddSummary(list, s)[1..] == list
    ensures multiset(AddSummary(list, s)) == multiset(list) + multiset{s}
  {
    assert AddSummary(list, s)[1..] == list;
    assert AddSummary(list, s) == [s] + list;
  }

  /** The `eq` filter the query gets, if any. */
  datatype OwnerFilter = ByUser(userId: string) | ByAnonymous(anonymousId: string) | Unfiltered

  /**
   * A signed-in user selects by `user_id`; otherwise a non-empty
   * `anonymous_id` cookie selects by `anonymous_id`; otherwise nothing is
   * filtered.
   */
  function SelectFilter(user: Option<User>, cookie: Option<string>): (f: OwnerFilter)
    ensures user.Some? ==> f == ByUser(user.value.id)
    ensures user.None? && cookie.Some? && cookie.value != "" ==> f == ByAnonymous(cookie.value)
    ensures f.Unfiltered? <==> user.None? && (cookie.None? || cookie.value == "")
  {
    if user.Some? then ByUser(user.value.id)
    else if cookie.Some? && cookie.value != "" then ByAnonymous(cookie.value)
    else Unfiltered
  }

  /** A row passes the filter: `eq` on a column, where `null` equals nothing. */
  predicate Matches<C>(f: OwnerFilter, row: SummaryRecord<C>) {
    match f
    case ByUser(id) => row.userId == Some(id)
    case ByAnonymous(id) => row.anonymousId == Some(id)
    case Unfiltered => true
  }

  /** The rows of `table` that pass `f`, in table order. */
  function Select<C>(table: seq<SummaryRecord<C>>, f: OwnerFilter): (r: seq<SummaryRecord<C>>)
    ensures |r| <= |table|
    ensures forall i :: 0 <= i < |r| ==> Matches(f, r[i]) && r[i] in table
    ensures forall row :: row in table && Matches(f, row) ==> row in r
  {
    if table == [] then []
    else (if Matches(f, table[0]) then [table[0]] else []) + Select(table[1..], f)
  }

  /** The query's outcome: an error, or `data`, which may be `null`. */
  datatype QueryAnswer<C> = QueryError | QueryData(data: Option<seq<SummaryRecord<C>>>)

  /** The hook's state once a fetch has finished. */
  datatype FetchState<C> = FetchState(summaries: seq<SummaryRecord<C>>, loading: bool)

  /**
   * `fetchSummaries()`: the filter is chosen from the user and the cookie the
   * script can read, and the database answers the filtered query. An error
   * and a `null` result both leave an empty list; loading always ends.
   */
  function FetchSummaries<C>(user: Option<User>, cookie: Option<string>, answer: OwnerFilter -> QueryAnswer<C>): (s: FetchState<C>)
    ensures !s.loading
    ensures answer(SelectFilter(user, cookie)).QueryError? ==> s.summaries == []
    ensures answer(SelectFilter(user, cookie)) == QueryData(None) ==> s.summaries == []
    ensures answer(SelectFilter(user, cookie)).QueryData? && answer(SelectFilter(user, cookie)).data.Some?
      ==> s.summaries == answer(SelectFilter(user, cookie)).data.value
  {
    match answer(SelectFilter(user, cookie))
    case QueryError => FetchState([], false)
    case QueryData(None) => FetchState([], false)
    case QueryData(Some(rows)) => FetchState(rows, false)
  }

  /** A database that answers every query with exactly the selected rows of `table`. */
  function Honest<C>(table: seq<SummaryRecord<C>>): OwnerFilter -> QueryAnswer<C> {
    f => QueryData(Some(Select(table, f)))
  }

  /** Against an honest database the list holds exactly the visitor's rows. */
  lemma FetchShowsOwnRows<C>(table: seq<SummaryRecord<C>>, user: Option<User>, cookie: Option<string>)
    ensures var s := FetchSummaries(user, cookie, Honest(table)).summaries;
      && (forall i :: 0 <= i < |s| ==> Matches(SelectFilter(user, cookie), s[i]) && s[i] in table)
      && (forall row :: row in table && Matches(SelectFilter(user, cookie), row) ==> row in s)
  {
  }

  lemma {:induction false} SelectAll<C>(table: seq<SummaryRecord<C>>)
    ensures Select(table, Unfiltered) == table
  {
    if table != [] {
      SelectAll(table[1..]);
      assert Select(table, Unfiltered) == [table[0]] + Select(table[1..], Unfiltered);
      assert table == [table[0]] + table[1..];
    }
  }

  /** With neither a user nor a readable cookie the list is the whole table. */
  lemma UnfilteredShowsEverything<C>(table: seq<SummaryRecord<C>>)
    ensures FetchSummaries(None, None, Honest(table)).summaries == table
  {
    SelectAll(table);
  }

  /** With a user, the query filters on the user whatever cookie is present. */
  lemma UserFilterWins(u: User, cookie: Option<string>, other: Option<string>)
    ensures SelectFilter(Some(u), cookie) == SelectFilter(Some(u), other) == ByUser(u.id)
  {
  }

  /**
   * A row the analyze endpoint stores for a signed-in user (with a non-empty
   * id) is listed for that user, and for no anonymous visitor.
   */
  lemma StoredRowVisibleToUser<J>(form: AnalyzeRoute.FormRead, env: AnalyzeRoute.Externals<J>, anonymousCookie: Option<string>)
    requires AnalyzeRoute.Post(form, env).status == 200
    requires env.user.Some? && env.user.value.id != ""
    ensures var row := AnalyzeRoute.Post(form, env).insert.value;
      && Matches(SelectFilter(env.user, anonymousCookie), row)
      && (forall id :: !Matches(ByAnonymous(id), row))
  {
    AnalyzeRoute.SingleOwner(form, env);
  }

  /**
   * A row stored for an anonymous visitor is listed under the anonymous id
   * the request used, and under no other anonymous id or user.
   */
  lemma StoredRowVisibleToAnonymousOwner<J>(form: AnalyzeRoute.FormRead, env: AnalyzeRoute.Externals<J>, other: string)
    requires AnalyzeRoute.Post(form, env).status == 200 && env.user.None?
    requires other != AnalyzeRoute.AnonymousId(env.cookie, env.freshId)
    ensures var row := AnalyzeRoute.Post(form, env).insert.value;
      && Matches(ByAnonymous(AnalyzeRoute.AnonymousId(env.cookie, env.freshId)), row)
      && !Matches(ByAnonymous(other), row)
      && (forall id :: !Matches(ByUser(id), row))
  {
    AnalyzeRoute.SingleOwner(form, env);
  }

  /** `Cookies.get` in the browser: a cookie marked `httpOnly` is not visible to scripts. */
  function ScriptVisible(c: AnalyzeRoute.Cookie): (v: Option<string>)
    ensures v.Some? <==> !c.httpOnly
    ensures v.Some? ==> v.value == c.value
  {
    if c.httpOnly then None else Some(c.value)
  }

  /**
   * The cookie the endpoint issues is `httpOnly`, so the hook never reads it:
   * an anonymous visitor's list is fetched without a filter and, against an
   * honest database, holds every stored row.
   */
  lemma AnonymousListIsUnfiltered<J>(form: AnalyzeRoute.FormRead, env: AnalyzeRoute.Externals<J>, table: seq<SummaryRecord<J>>)
    requires AnalyzeRoute.Post(form, env).setCookie.Some?
    ensures ScriptVisible(AnalyzeRoute.Post(form, env).setCookie.value).None?
    ensures SelectFilter(None, ScriptVisible(AnalyzeRoute.Post(form, env).setCookie.value)) == Unfiltered
    ensures FetchSummaries(None, ScriptVisible(AnalyzeRoute.Post(form, env).setCookie.value), Honest(table)).summaries == table
  {
    UnfilteredShowsEverything(table);
  }
}
