/**
  The action handlers of the `App` component as state transitions. Each
  request-making handler runs in two parts: it starts (flush the message,
  spinner on), then its promise settles and the `.then` or `.catch` callback
  applies the outcome. A step applies both parts at once.
 */
module AppController {
  import opened JsArray
  import opened AppState

  const Goodbye: string := "Goodbye!"

  /** What every request-making handler does before it sends its request. */
  function Begin(s: State): State
  {
    s.(message := "", spinnerOn := true)
  }

  /** `logout`: clear local storage, say goodbye, go to the login screen. */
  function Logout(s: State): State
  {
    s.(token := None, message := Goodbye, route := LoginScreen)
  }

  /** The `.catch` callback shared by the four authenticated handlers: a 401
      logs out first, and then the server's message is shown either way. */
  function Reject(s: State, status: int, error: ErrorBody): State
  {
    var s' := if status == 401 then Logout(s) else s;
    s'.(message := error.message, spinnerOn := false)
  }

  /** `login`: a 200 stores the token and goes to the articles screen; a
      rejection only shows the server's message. */
  function Login(s: State, credentials: Credentials, o: Outcome<LoginBody>): State
  {
    var s' := Begin(s);
    match o
    case Resolved(status, body) =>
      if status == 200 then
        s'.(token := Some(body.token), message := body.message, spinnerOn := false, route := ArticlesScreen)
      else s'
    case Rejected(_, error) =>
      s'.(message := error.message, spinnerOn := false)
  }

  /** `getArticles`: a 200 installs the server's list. */
  function GetArticles(s: State, o: Outcome<ArticlesBody>): State
  {
    var s' := Begin(s);
    match o
    case Resolved(status, body) =>
      if status == 200 then s'.(articles := body.articles, message := body.message, spinnerOn := false)
      else s'
    case Rejected(status, error) => Reject(s', status, error)
  }

  /** The state after `postArticle`, and how many times it called `callback`. */
  datatype Posted = Posted(state: State, callbackCalls: nat)

  /** `postArticle`: a 201 calls the callback, then appends the created
      article to a copy of the list. */
  function PostArticle(s: State, fields: ArticleFields, o: Outcome<ArticleBody>): Posted
  {
    var s' := Begin(s);
    match o
    case Resolved(status, body) =>
      if status == 201 then
        Posted(s'.(articles := s'.articles + [body.article], message := body.message, spinnerOn := false), 1)
      else Posted(s', 0)
    case Rejected(status, error) => Posted(Reject(s', status, error), 0)
  }

  /** `articles.findIndex(article => article.article_id === currentArticleId)`;
      an undefined selection matches no article. */
  function SelectedIndex(articles: seq<Article>, selected: Option<int>): (i: int)
    ensures -1 <= i < |articles|
    ensures i != -1 ==> Some(articles[i].articleId) == selected
    ensures i != -1 ==> forall j :: 0 <= j < i ==> Some(articles[j].articleId) != selected
    ensures i == -1 <==> forall j :: 0 <= j < |articles| ==> Some(articles[j].articleId) != selected
  {
    FindIndex(articles, (a: Article) => Some(a.articleId) == selected)
  }

  /** `updateArticle`: a 200 splices the server's article into a copy of the
      list at the selected article's index, and clears the selection. The
      `articleId` only addresses the request; it is not used to find the slot. */
  function UpdateArticle(s: State, articleId: int, fields: ArticleFields, o: Outcome<ArticleBody>): State
  {
    var s' := Begin(s);
    match o
    case Resolved(status, body) =>
      if status == 200 then
        var index := SelectedIndex(s'.articles, s'.currentArticleId);
        var copy := Splice(s'.articles, index, 1, [body.article]).elements;
        s'.(message := body.message, spinnerOn := false, articles := copy, currentArticleId := None)
      else s'
    case Rejected(status, error) => Reject(s', status, error)
  }

  /** `deleteArticle`: a 200 splices position `index` out of a copy of the
      list. The `articleId` only addresses the request. */
  function DeleteArticle(s: State, articleId: int, index: int, o: Outcome<MessageBody>): State
  {
    var s' := Begin(s);
    match o
    case Resolved(status, body) =>
      if status == 200 then
        var copy := Splice(s'.articles, index, 1, []).elements;
        s'.(message := body.message, spinnerOn := false, articles := copy)
      else s'
    case Rejected(status, error) => Reject(s', status, error)
  }

  /** One handler call, from its start to the settling of its request. */
  function Step(s: State, a: Action): State
  {
    match a
    case LogoutAction => Logout(s)
    case LoginAction(credentials, o) => Login(s, credentials, o)
    case GetArticlesAction(o) => GetArticles(s, o)
    case PostArticleAction(fields, o) => PostArticle(s, fields, o).state
    case UpdateArticleAction(articleId, fields, o) => UpdateArticle(s, articleId, fields, o)
    case DeleteArticleAction(articleId, index, o) => DeleteArticle(s, articleId, index, o)
  }

  /** Handler calls one after another, each settling before the next starts. */
  function Run(s: State, actions: seq<Action>): State
    decreases |actions|
  {
    if |actions| == 0 then s else Run(Step(s, actions[0]), actions[1..])
  }
}
