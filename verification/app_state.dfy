/**
  The state the `App` component keeps (its four `useState` hooks, plus the
  "token" entry of local storage and the router's current route) and the
  user actions it handles, each paired with how its request settled.
 */
module AppState {

  datatype Option<T> = None | Some(value: T)

  /** An article as the server returns it; only `articleId` is ever inspected. */
  datatype Article = Article(articleId: int, title: string, text: string, topic: string)

  /** The two screens: "/" (login form) and "articles". */
  datatype Route = LoginScreen | ArticlesScreen

  /** `message`, `articles`, `currentArticleId` (undefined is `None`) and
      `spinnerOn` are the component's hooks; `token` is local storage's
      "token" entry; `route` is where the router last navigated. */
  datatype State = State(
    message: string,
    articles: seq<Article>,
    currentArticleId: Option<int>,
    spinnerOn: bool,
    token: Option<string>,
    route: Route)

  /** The state right after the component mounts: the hooks hold their
      initial values, while the stored token and the route are whatever the
      browser had. */
  function Initial(token: Option<string>, route: Route): State
  {
    State("", [], None, false, token, route)
  }

  /** `response.data` of each endpoint, and `error.response.data` of any. */
  datatype LoginBody = LoginBody(message: string, token: string)
  datatype ArticlesBody = ArticlesBody(message: string, articles: seq<Article>)
  datatype ArticleBody = ArticleBody(message: string, article: Article)
  datatype MessageBody = MessageBody(message: string)
  datatype ErrorBody = ErrorBody(message: string)

  /** How a request settled: the promise resolved with a response, or it
      rejected with an error that carries a response. */
  datatype Outcome<D> =
    | Resolved(status: int, data: D)
    | Rejected(status: int, error: ErrorBody)

  /** What the user submits with a request; the server's reply decides the
      new state, so these are carried but never read by the controller. */
  datatype Credentials = Credentials(username: string, password: string)
  datatype ArticleFields = ArticleFields(title: string, text: string, topic: string)

  /** A call of one of the six handlers, with the outcome of its request. */
  datatype Action =
    | LogoutAction
    | LoginAction(credentials: Credentials, loginOutcome: Outcome<LoginBody>)
    | GetArticlesAction(listOutcome: Outcome<ArticlesBody>)
    | PostArticleAction(newArticle: ArticleFields, postOutcome: Outcome<ArticleBody>)
    | UpdateArticleAction(updateId: int, changes: ArticleFields, updateOutcome: Outcome<ArticleBody>)
    | DeleteArticleAction(deleteId: int, index: int, deleteOutcome: Outcome<MessageBody>)
}
