/**
  What the handlers of the `App` component promise. Each field of the state
  gets a reference definition that reads it off the action alone, stated
  without `splice` or `findIndex`; `StepByField` proves that one handler call
  sets every field as those definitions say. The remaining lemmas state the
  promises of the individual handlers and of sequences of calls.
 */
module AppProperties {
  import opened JsArray
  import opened AppState
  import opened AppController

  /** How an action's request settled, with the success body reduced to its
      message. */
  datatype Settlement = NoRequest | Succeeded(status: int, message: string) | Failed(status: int, error: ErrorBody)

  function Settle<D>(o: Outcome<D>, message: D -> string): Settlement
  {
    match o
    case Resolved(status, data) => Succeeded(status, message(data))
    case Rejected(status, error) => Failed(status, error)
  }

  function SettlementOf(a: Action): Settlement
  {
    match a
    case LogoutAction => NoRequest
    case LoginAction(_, o) => Settle(o, (b: LoginBody) => b.message)
    case GetArticlesAction(o) => Settle(o, (b: ArticlesBody) => b.message)
    case PostArticleAction(_, o) => Settle(o, (b: ArticleBody) => b.message)
    case UpdateArticleAction(_, _, o) => Settle(o, (b: ArticleBody) => b.message)
    case DeleteArticleAction(_, _, o) => Settle(o, (b: MessageBody) => b.message)
  }

  /** The one status a handler's `.then` callback acts on. */
  function ExpectedStatus(a: Action): int
  {
    if a.PostArticleAction? then 201 else 200
  }

  /** The handlers whose requests carry the token and log out on a 401. */
  predicate Authenticated(a: Action)
  {
    a.GetArticlesAction? || a.PostArticleAction? || a.UpdateArticleAction? || a.DeleteArticleAction?
  }

  /** The request resolved and the `.then` callback acted on it. */
  predicate Accepted(a: Action)
  {
    SettlementOf(a).Succeeded? && SettlementOf(a).status == ExpectedStatus(a)
  }

  /** The request resolved, but with a status the `.then` callback ignores. */
  predicate Ignored(a: Action)
  {
    SettlementOf(a).Succeeded? && SettlementOf(a).status != ExpectedStatus(a)
  }

  /** An authenticated request the server answered with 401. */
  predicate Unauthorized(a: Action)
  {
    Authenticated(a) && SettlementOf(a).Failed? && SettlementOf(a).status == 401
  }

  /** The message banner after the action. */
  function MessageAfter(a: Action): string
  {
    match SettlementOf(a)
    case NoRequest => Goodbye
    case Succeeded(status, message) => if status == ExpectedStatus(a) then message else ""
    case Failed(_, error) => error.message
  }

  /** The spinner after the action: `logout` leaves it alone; otherwise it
      stays on only when the `.then` callback ignored the response. */
  function SpinnerAfter(spinnerOn: bool, a: Action): bool
  {
    if a.LogoutAction? then spinnerOn else Ignored(a)
  }

  /** The stored token after the action. */
  function TokenAfter(token: Option<string>, a: Action): Option<string>
  {
    if a.LogoutAction? || Unauthorized(a) then None
    else if a.LoginAction? && Accepted(a) then Some(a.loginOutcome.data.token)
    else token
  }

  /** The route after the action. */
  function RouteAfter(route: Route, a: Action): Route
  {
    if a.LogoutAction? || Unauthorized(a) then LoginScreen
    else if a.LoginAction? && Accepted(a) then ArticlesScreen
    else route
  }

  /** The selection after the action: only an accepted update clears it. */
  function SelectionAfter(selected: Option<int>, a: Action): Option<int>
  {
    if a.UpdateArticleAction? && Accepted(a) then None else selected
  }

  /** Whether some article has the given id (the selection "matches"). */
  predicate Selects(articles: seq<Article>, selected: Option<int>)
  {
    exists j :: 0 <= j < |articles| && Some(articles[j].articleId) == selected
  }

  /** The list with its first article of the selected id replaced by `x`. */
  function ReplaceFirst(articles: seq<Article>, selected: Option<int>, x: Article): seq<Article>
    decreases |articles|
  {
    if |articles| == 0 then []
    else if Some(articles[0].articleId) == selected then [x] + articles[1..]
    else [articles[0]] + ReplaceFirst(articles[1..], selected, x)
  }

  /** The list after replacing the selected article with `x`: the first
      matching article when there is one, else the last article, else `x`
      alone. */
  function ReplaceSelected(articles: seq<Article>, selected: Option<int>, x: Article): seq<Article>
  {
    if Selects(articles, selected) then ReplaceFirst(articles, selected, x)
    else if |articles| > 0 then articles[|articles| - 1 := x]
    else [x]
  }

  /** The list after removing position `index`, counted from the end when
      negative; an index at or past the end removes nothing. */
  function RemoveAt(articles: seq<Article>, index: int): seq<Article>
  {
    if index >= |articles| || |articles| == 0 then articles
    else
      var j := if index >= 0 then index else Max(|articles| + index, 0);
      articles[..j] + articles[j + 1..]
  }

  /** The article list after the action. */
  function ArticlesAfter(articles: seq<Article>, selected: Option<int>, a: Action): seq<Article>
  {
    if !Accepted(a) then articles
    else
      match a
      case GetArticlesAction(o) => o.data.articles
      case PostArticleAction(_, o) => articles + [o.data.article]
      case UpdateArticleAction(_, _, o) => ReplaceSelected(articles, selected, o.data.article)
      case DeleteArticleAction(_, index, _) => RemoveAt(articles, index)
      case _ => articles
  }

  /** `SelectedIndex` finds an article exactly when the selection matches one. */
  lemma SelectedIndexFinds(articles: seq<Article>, selected: Option<int>)
    ensures SelectedIndex(articles, selected) >= 0 <==> Selects(articles, selected)
  {
    var i := SelectedIndex(articles, selected);
    if i >= 0 {
      assert Some(articles[i].articleId) == selected;
    }
  }

  /** `ReplaceFirst` overwrites exactly the first matching position. */
  lemma {:induction false} ReplaceFirstAt(articles: seq<Article>, selected: Option<int>, x: Article, i: nat)
    requires i < |articles| && Some(articles[i].articleId) == selected
    requires forall j :: 0 <= j < i ==> Some(articles[j].articleId) != selected
    ensures ReplaceFirst(articles, selected, x) == articles[i := x]
    decreases i
  {
    if i > 0 {
      ReplaceFirstAt(articles[1..], selected, x, i - 1);
      assert articles[i := x] == [articles[0]] + articles[1..][i - 1 := x];
    }
  }

  /** `updateArticle`'s splice at the found index is `ReplaceSelected`. */
  lemma UpdateSplice(articles: seq<Article>, selected: Option<int>, x: Article)
    ensures Splice(articles, SelectedIndex(articles, selected), 1, [x]).elements
         == ReplaceSelected(articles, selected, x)
  {
    var i := SelectedIndex(articles, selected);
    SelectedIndexFinds(articles, selected);
    if i >= 0 {
      SpliceReplaceInside(articles, i, x);
      ReplaceFirstAt(articles, selected, x, i);
    } else if |articles| > 0 {
      SpliceReplaceLast(articles, x);
    } else {
      SpliceEmptyInserts(i, x);
    }
  }

  /** `deleteArticle`'s splice is `RemoveAt`. */
  lemma DeleteSplice(articles: seq<Article>, index: int)
    ensures Splice(articles, index, 1, []).elements == RemoveAt(articles, index)
  {
    if index >= |articles| {
      SpliceRemoveBeyondEnd(articles, index);
    } else if |articles| == 0 {
    } else if index >= 0 {
      SpliceRemoveInside(articles, index);
    } else {
      SpliceRemoveNegative(articles, index);
    }
  }

  /** The state the reference definitions give after the action. */
  function ByField(s: State, a: Action): State
  {
    State(
      MessageAfter(a),
      ArticlesAfter(s.articles, s.currentArticleId, a),
      SelectionAfter(s.currentArticleId, a),
      SpinnerAfter(s.spinnerOn, a),
      TokenAfter(s.token, a),
      RouteAfter(s.route, a))
  }

  /** `updateArticle` agrees with the reference definitions. */
  lemma UpdateByField(s: State, articleId: int, fields: ArticleFields, o: Outcome<ArticleBody>)
    ensures UpdateArticle(s, articleId, fields, o) == ByField(s, UpdateArticleAction(articleId, fields, o))
  {
    if o.Resolved? && o.status == 200 {
      UpdateSplice(s.articles, s.currentArticleId, o.data.article);
    }
  }

  /** `deleteArticle` agrees with the reference definitions. */
  lemma DeleteByField(s: State, articleId: int, index: int, o: Outcome<MessageBody>)
    ensures DeleteArticle(s, articleId, index, o) == ByField(s, DeleteArticleAction(articleId, index, o))
  {
    if o.Resolved? && o.status == 200 {
      DeleteSplice(s.articles, index);
    }
  }

  /** One handler call sets each field of the state as the reference
      definitions above say. */
  lemma StepByField(s: State, a: Action)
    ensures Step(s, a) == ByField(s, a)
  {
    match a
    case LogoutAction =>
    case LoginAction(_, o) =>
    case GetArticlesAction(o) =>
    case PostArticleAction(_, o) =>
    case UpdateArticleAction(articleId, fields, o) =>
      UpdateByField(s, articleId, fields, o);
    case DeleteArticleAction(articleId, index, o) =>
      DeleteByField(s, articleId, index, o);
  }

  /** `logout` empties the token store, says "Goodbye!" and goes to "/", and
      touches nothing else; doing it twice is doing it once. */
  lemma LogoutIdempotent(s: State)
    ensures Logout(s) == s.(token := None, message := "Goodbye!", route := LoginScreen)
    ensures Logout(Logout(s)) == Logout(s)
  {
  }

  /** A handler's start overwrites the message and the spinner before any
      outcome is applied, so their earlier values never matter ... */
  lemma StartForgetsMessageAndSpinner(s1: State, s2: State, a: Action)
    requires !a.LogoutAction?
    requires s1.(message := "", spinnerOn := true) == s2.(message := "", spinnerOn := true)
    ensures Step(s1, a) == Step(s2, a)
  {
  }

  /** ... and a response the `.then` callback ignores leaves exactly the
      start visible: empty message, spinner on. */
  lemma IgnoredResponseShowsStart(s: State, a: Action)
    requires Ignored(a)
    ensures Step(s, a) == s.(message := "", spinnerOn := true)
  {
  }

  /** `login` with 200 stores the token, shows the server's message, stops
      the spinner and goes to the articles screen. */
  lemma LoginAccepted(s: State, credentials: Credentials, body: LoginBody)
    ensures Login(s, credentials, Resolved(200, body))
         == s.(token := Some(body.token), message := body.message, spinnerOn := false, route := ArticlesScreen)
  {
  }

  /** A rejected `login` shows the server's message and stops the spinner;
      it has no 401 branch, so token and route stay as they were. */
  lemma LoginRejected(s: State, credentials: Credentials, status: int, error: ErrorBody)
    ensures Login(s, credentials, Rejected(status, error)) == s.(message := error.message, spinnerOn := false)
  {
  }

  /** `getArticles` with 200 installs exactly the server's list: whatever the
      list was before, nothing of it is kept. */
  lemma GetArticlesReplaces(s1: State, s2: State, body: ArticlesBody)
    ensures GetArticles(s1, Resolved(200, body)).articles == body.articles
    ensures GetArticles(s1, Resolved(200, body)).articles == GetArticles(s2, Resolved(200, body)).articles
  {
  }

  /** `postArticle` calls its callback exactly once when the server answers
      201 and never otherwise. */
  lemma PostArticleCallback(s: State, fields: ArticleFields, o: Outcome<ArticleBody>)
    ensures PostArticle(s, fields, o).callbackCalls == 1 <==> o.Resolved? && o.status == 201
    ensures PostArticle(s, fields, o).callbackCalls <= 1
  {
  }

  /** `postArticle` with 201 appends the created article: one element more,
      every earlier element unchanged in its place. */
  lemma PostArticleAppends(s: State, fields: ArticleFields, body: ArticleBody)
    ensures var t := PostArticle(s, fields, Resolved(201, body)).state;
            && |t.articles| == |s.articles| + 1
            && (forall i :: 0 <= i < |s.articles| ==> t.articles[i] == s.articles[i])
            && t.articles[|s.articles|] == body.article
            && t.message == body.message && !t.spinnerOn
  {
  }

  /** `updateArticle` with 200 when some article has the selected id: the
      first such slot, and only it, becomes the server's article, and the
      selection is cleared. */
  lemma UpdateReplacesSelected(s: State, articleId: int, fields: ArticleFields, body: ArticleBody, i: int)
    requires 0 <= i < |s.articles| && Some(s.articles[i].articleId) == s.currentArticleId
    requires forall j :: 0 <= j < i ==> Some(s.articles[j].articleId) != s.currentArticleId
    ensures var t := UpdateArticle(s, articleId, fields, Resolved(200, body));
            t.articles == s.articles[i := body.article] && t.currentArticleId == None
  {
    assert SelectedIndex(s.articles, s.currentArticleId) == i;
    SpliceReplaceInside(s.articles, i, body.article);
  }

  /** `updateArticle` with 200 when no article has the selected id (or none
      is selected): `findIndex` gives -1, and `splice(-1, 1, x)` overwrites
      the last article. */
  lemma UpdateWithoutMatchReplacesLast(s: State, articleId: int, fields: ArticleFields, body: ArticleBody)
    requires |s.articles| > 0
    requires forall j :: 0 <= j < |s.articles| ==> Some(s.articles[j].articleId) != s.currentArticleId
    ensures var t := UpdateArticle(s, articleId, fields, Resolved(200, body));
            t.articles == s.articles[|s.articles| - 1 := body.article] && t.currentArticleId == None
  {
    StepByField(s, UpdateArticleAction(articleId, fields, Resolved(200, body)));
  }

  /** `updateArticle` with 200 on an empty list inserts the server's article. */
  lemma UpdateOnEmptyInserts(s: State, articleId: int, fields: ArticleFields, body: ArticleBody)
    requires s.articles == []
    ensures UpdateArticle(s, articleId, fields, Resolved(200, body)).articles == [body.article]
  {
    StepByField(s, UpdateArticleAction(articleId, fields, Resolved(200, body)));
  }

  /** `updateArticle` with 200 keeps a non-empty list's length and clears the
      selection; the id the request was sent for plays no part. */
  lemma UpdateKeepsLength(s: State, articleId: int, otherId: int, fields: ArticleFields, body: ArticleBody)
    requires |s.articles| > 0
    ensures var t := UpdateArticle(s, articleId, fields, Resolved(200, body));
            && |t.articles| == |s.articles|
            && t.currentArticleId == None
            && t == UpdateArticle(s, otherId, fields, Resolved(200, body))
  {
    StepByField(s, UpdateArticleAction(articleId, fields, Resolved(200, body)));
  }

  /** `deleteArticle` with 200 and an index inside the list removes that
      position and nothing else; the id sent to the server plays no part. */
  lemma DeleteRemovesIndex(s: State, articleId: int, otherId: int, index: int, body: MessageBody)
    requires 0 <= index < |s.articles|
    ensures var t := DeleteArticle(s, articleId, index, Resolved(200, body));
            && t.articles == s.articles[..index] + s.articles[index + 1..]
            && t == DeleteArticle(s, otherId, index, Resolved(200, body))
  {
    DeleteSplice(s.articles, index);
  }

  /** `deleteArticle` with 200 and an index at or past the end leaves the
      list as it was. */
  lemma DeleteBeyondEndKeepsList(s: State, articleId: int, index: int, body: MessageBody)
    requires index >= |s.articles|
    ensures DeleteArticle(s, articleId, index, Resolved(200, body)).articles == s.articles
  {
    DeleteSplice(s.articles, index);
  }

  /** `deleteArticle` with 200 and a negative index counts from the end,
      and removes the first article when the index reaches past the start. */
  lemma DeleteNegativeIndex(s: State, articleId: int, index: int, body: MessageBody)
    requires index < 0 && |s.articles| > 0
    ensures var j := Max(|s.articles| + index, 0);
            DeleteArticle(s, articleId, index, Resolved(200, body)).articles == s.articles[..j] + s.articles[j + 1..]
  {
    DeleteSplice(s.articles, index);
  }

  /** A 401 on any authenticated request logs out (token gone, back to "/"),
      but the server's message, set after `logout`, replaces "Goodbye!";
      the spinner stops and the list and selection are kept. */
  lemma UnauthorizedLogsOut(s: State, a: Action)
    requires Unauthorized(a)
    ensures var t := Step(s, a);
            && t.token == None && t.route == LoginScreen
            && t.message == SettlementOf(a).error.message
            && !t.spinnerOn
            && t.articles == s.articles && t.currentArticleId == s.currentArticleId
  {
    StepByField(s, a);
  }

  /** Any rejected request stops the spinner; any other failure than a 401
      on an authenticated request keeps the session and route. */
  lemma FailureStopsSpinner(s: State, a: Action)
    requires SettlementOf(a).Failed?
    ensures var t := Step(s, a);
            && !t.spinnerOn
            && t.message == SettlementOf(a).error.message
            && (!Unauthorized(a) ==> t.token == s.token && t.route == s.route)
  {
    StepByField(s, a);
  }

  /** The spinner is on after a call exactly when the `.then` callback
      ignored the response, or the call was `logout` with the spinner on. */
  lemma SpinnerOnIff(s: State, a: Action)
    ensures Step(s, a).spinnerOn <==> Ignored(a) || (a.LogoutAction? && s.spinnerOn)
  {
    StepByField(s, a);
  }

  /** Starting with the spinner off, it is off after any run in which no
      response was ignored. */
  lemma {:induction false} RunKeepsSpinnerOff(s: State, actions: seq<Action>)
    requires !s.spinnerOn
    requires forall i :: 0 <= i < |actions| ==> !Ignored(actions[i])
    ensures !Run(s, actions).spinnerOn
    decreases |actions|
  {
    if |actions| > 0 {
      SpinnerOnIff(s, actions[0]);
      RunKeepsSpinnerOff(Step(s, actions[0]), actions[1..]);
    }
  }

  /** An accepted `login` that stored the given token. */
  predicate StoresToken(a: Action, token: string)
  {
    a.LoginAction? && Accepted(a) && a.loginOutcome.data.token == token
  }

  /** A token held after a run was held before it or stored by one of its
      accepted logins. */
  lemma {:induction false} TokenProvenance(s: State, actions: seq<Action>, token: string)
    requires Run(s, actions).token == Some(token)
    ensures s.token == Some(token) || exists i :: 0 <= i < |actions| && StoresToken(actions[i], token)
    decreases |actions|
  {
    if |actions| > 0 {
      var s' := Step(s, actions[0]);
      StepByField(s, actions[0]);
      TokenProvenance(s', actions[1..], token);
      if s'.token == Some(token) {
        if s.token != Some(token) {
          assert StoresToken(actions[0], token);
        }
      } else {
        var i :| 0 <= i < |actions[1..]| && StoresToken(actions[1..][i], token);
        assert StoresToken(actions[i + 1], token);
      }
    }
  }

  /** A run that ends with `logout` leaves no token and the login screen,
      whatever came before. */
  lemma {:induction false} RunEndingInLogout(s: State, actions: seq<Action>)
    ensures var t := Run(s, actions + [LogoutAction]);
            t.token == None && t.route == LoginScreen && t.message == "Goodbye!"
    decreases |actions|
  {
    if |actions| == 0 {
      assert Run(s, [LogoutAction]) == Logout(s);
    } else {
      assert (actions + [LogoutAction])[1..] == actions[1..] + [LogoutAction];
      RunEndingInLogout(Step(s, actions[0]), actions[1..]);
    }
  }

  /** No two articles of the list share an id. */
  predicate DistinctIds(articles: seq<Article>)
  {
    forall i, j :: 0 <= i < j < |articles| ==> articles[i].articleId != articles[j].articleId
  }

  /** Removing a position keeps ids distinct. */
  lemma RemoveAtKeepsIdsDistinct(articles: seq<Article>, index: int)
    requires DistinctIds(articles)
    ensures DistinctIds(RemoveAt(articles, index))
  {
    if 0 < |articles| && index < |articles| {
      var j := if index >= 0 then index else Max(|articles| + index, 0);
      var r := articles[..j] + articles[j + 1..];
      forall p, q | 0 <= p < q < |r|
        ensures r[p].articleId != r[q].articleId
      {
        var p' := if p < j then p else p + 1;
        var q' := if q < j then q else q + 1;
        assert r[p] == articles[p'] && r[q] == articles[q'];
      }
    }
  }

  /** `deleteArticle` keeps ids distinct, whatever the outcome. */
  lemma DeleteKeepsIdsDistinct(s: State, articleId: int, index: int, o: Outcome<MessageBody>)
    requires DistinctIds(s.articles)
    ensures DistinctIds(DeleteArticle(s, articleId, index, o).articles)
  {
    DeleteSplice(s.articles, index);
    RemoveAtKeepsIdsDistinct(s.articles, index);
  }

  /** Appending a created article with a fresh id keeps ids distinct. */
  lemma PostKeepsIdsDistinct(s: State, fields: ArticleFields, o: Outcome<ArticleBody>)
    requires DistinctIds(s.articles)
    requires o.Resolved? ==> forall j :: 0 <= j < |s.articles| ==> s.articles[j].articleId != o.data.article.articleId
    ensures DistinctIds(PostArticle(s, fields, o).state.articles)
  {
  }

  /** Overwriting an article with one of the same id keeps ids distinct. */
  lemma SameIdUpdateKeepsIdsDistinct(articles: seq<Article>, i: int, x: Article)
    requires DistinctIds(articles) && 0 <= i < |articles| && x.articleId == articles[i].articleId
    ensures DistinctIds(articles[i := x])
  {
    var r := articles[i := x];
    assert forall p :: 0 <= p < |r| ==> r[p].articleId == articles[p].articleId;
  }

  /** Replacing the selected article with the server's copy, which carries
      the same id, keeps ids distinct. */
  lemma UpdateKeepsIdsDistinct(s: State, articleId: int, fields: ArticleFields, body: ArticleBody)
    requires DistinctIds(s.articles) && Selects(s.articles, s.currentArticleId)
    requires Some(body.article.articleId) == s.currentArticleId
    ensures DistinctIds(UpdateArticle(s, articleId, fields, Resolved(200, body)).articles)
  {
    var i := SelectedIndex(s.articles, s.currentArticleId);
    SelectedIndexFinds(s.articles, s.currentArticleId);
    SpliceReplaceInside(s.articles, i, body.article);
    SameIdUpdateKeepsIdsDistinct(s.articles, i, body.article);
  }

  /** When no article matches the selection, an accepted `updateArticle`
      overwrites the last article, so a server copy carrying the id of any
      other article leaves two articles with that id. */
  lemma UpdateWithoutMatchCanDuplicateId(s: State, articleId: int, fields: ArticleFields, body: ArticleBody, k: int)
    requires DistinctIds(s.articles) && !Selects(s.articles, s.currentArticleId)
    requires 0 <= k < |s.articles| - 1 && s.articles[k].articleId == body.article.articleId
    ensures !DistinctIds(UpdateArticle(s, articleId, fields, Resolved(200, body)).articles)
  {
    var t := UpdateArticle(s, articleId, fields, Resolved(200, body));
    UpdateWithoutMatchReplacesLast(s, articleId, fields, body);
    var last := |s.articles| - 1;
    assert t.articles[k] == s.articles[k] && t.articles[last] == body.article;
  }

  /** `deleteArticle` never clears the selection: with distinct ids,
      deleting the selected article leaves `currentArticleId` naming an id
      that no remaining article has. */
  lemma DeleteKeepsDanglingSelection(s: State, articleId: int, index: int, body: MessageBody)
    requires DistinctIds(s.articles) && 0 <= index < |s.articles|
    requires Some(s.articles[index].articleId) == s.currentArticleId
    ensures var t := DeleteArticle(s, articleId, index, Resolved(200, body));
            t.currentArticleId == s.currentArticleId && !Selects(t.articles, t.currentArticleId)
  {
    var t := DeleteArticle(s, articleId, index, Resolved(200, body));
    DeleteSplice(s.articles, index);
    assert t.articles == s.articles[..index] + s.articles[index + 1..];
    forall j | 0 <= j < |t.articles|
      ensures Some(t.articles[j].articleId) != t.currentArticleId
    {
      var j' := if j < index then j else j + 1;
      assert t.articles[j] == s.articles[j'];
    }
  }

  /** From the mounted state, the selection stays undefined through any run:
      only the child components select an article, and no handler does. */
  lemma {:induction false} RunFromInitialSelectsNothing(token: Option<string>, route: Route, actions: seq<Action>)
    ensures Run(Initial(token, route), actions).currentArticleId == None
  {
    RunKeepsNoSelection(Initial(token, route), actions);
  }

  /** A state without a selection keeps none through any run. */
  lemma {:induction false} RunKeepsNoSelection(s: State, actions: seq<Action>)
    requires s.currentArticleId == None
    ensures Run(s, actions).currentArticleId == None
    decreases |actions|
  {
    if |actions| > 0 {
      StepByField(s, actions[0]);
      RunKeepsNoSelection(Step(s, actions[0]), actions[1..]);
    }
  }
}
