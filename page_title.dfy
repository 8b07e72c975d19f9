/**
 * The `title` helper of the site configuration: the `<title>` of a page is
 * the current blog article's title, else the page's own front-matter title,
 * else the site owner's name alone; a chosen title is followed by
 * " | " and the owner's name.
 *
 * Ruby values that may be nil are `Option`s. An article counts as present
 * when there is one; a front-matter title counts as present, as ActiveSupport's
 * `present?` decides for a String, when it is not blank, that is, when some
 * character of it is not Unicode White_Space.
 */
module PageTitle {

  datatype Option<T> = None | Some(value: T)

  /** The current blog article; its front-matter title may be missing. */
  datatype Article = Article(title: Option<string>)

  const SUFFIX: string := "Evan Lecklider"
  const JOINER: string := " | "

  // ---------------------------------------------------------------------------
  // Ruby and ActiveSupport
  // ---------------------------------------------------------------------------

  /** Characters with the Unicode White_Space property, which `[[:space:]]` matches. */
  predicate IsSpace(c: char) {
    ('\U{9}' <= c <= '\U{D}') || c == ' ' || c == '\U{85}' || c == '\U{A0}'
    || c == '\U{1680}' || ('\U{2000}' <= c <= '\U{200A}') || c == '\U{2028}'
    || c == '\U{2029}' || c == '\U{202F}' || c == '\U{205F}' || c == '\U{3000}'
  }

  /** `String#blank?`: the string matches `\A[[:space:]]*\z`. */
  function Blank(s: string): (b: bool)
    ensures b <==> forall k :: 0 <= k < |s| ==> IsSpace(s[k])
  {
    if s == [] then true else IsSpace(s[0]) && Blank(s[1..])
  }

  /** `present?` on a front-matter value that may be nil. */
  predicate PresentText(t: Option<string>) {
    t.Some? && !Blank(t.value)
  }

  /** `present?` on the current article, which is nil outside blog posts. */
  predicate PresentArticle(a: Option<Article>) {
    a.Some?
  }

  /** How `Array#join` prints one element: nil prints as the empty string. */
  function Text(t: Option<string>): string {
    if t.Some? then t.value else ""
  }

  /** `Array#join(sep)` on a flat array of strings and nils. */
  function Join(parts: seq<Option<string>>, sep: string): string
  {
    if |parts| == 0 then ""
    else if |parts| == 1 then Text(parts[0])
    else Join(parts[..|parts| - 1], sep) + sep + Text(parts[|parts| - 1])
  }

  /** Joining two elements puts the separator between them, once. */
  lemma {:induction false} JoinPair(x: Option<string>, y: Option<string>, sep: string)
    ensures Join([x, y], sep) == Text(x) + sep + Text(y)
  {
    assert [x, y][..1] == [x];
  }

  // ---------------------------------------------------------------------------
  // The helper
  // ---------------------------------------------------------------------------

  /** The `title` helper, given the current article and the page's front-matter title. */
  function Title(article: Option<Article>, pageTitle: Option<string>): (t: string)
    ensures |t| >= |SUFFIX| && t[|t| - |SUFFIX|..] == SUFFIX
  {
    if PresentArticle(article) then
      JoinPair(article.value.title, Some(SUFFIX), JOINER);
      Join([article.value.title, Some(SUFFIX)], JOINER)
    else if PresentText(pageTitle) then
      JoinPair(pageTitle, Some(SUFFIX), JOINER);
      Join([pageTitle, Some(SUFFIX)], JOINER)
    else
      SUFFIX
  }

  /** What the title shows in front of the separator, if it shows anything. */
  function Heading(article: Option<Article>, pageTitle: Option<string>): Option<string> {
    if PresentArticle(article) then Some(Text(article.value.title))
    else if PresentText(pageTitle) then Some(pageTitle.value)
    else None
  }

  /** On a blog article, the title is the article's title, the joiner and the suffix. */
  lemma ArticleBranch(article: Article, pageTitle: Option<string>)
    ensures Title(Some(article), pageTitle) == Text(article.title) + JOINER + SUFFIX
  {
    JoinPair(article.title, Some(SUFFIX), JOINER);
  }

  /** The article wins: with an article, the page's own title makes no difference. */
  lemma ArticlePrecedence(article: Article, p1: Option<string>, p2: Option<string>)
    ensures Title(Some(article), p1) == Title(Some(article), p2)
  {
    ArticleBranch(article, p1);
    ArticleBranch(article, p2);
  }

  /** Elsewhere a present front-matter title comes first, then the joiner and the suffix. */
  lemma PageBranch(pageTitle: string)
    requires !Blank(pageTitle)
    ensures Title(None, Some(pageTitle)) == pageTitle + JOINER + SUFFIX
  {
    assert PresentText(Some(pageTitle));
    JoinPair(Some(pageTitle), Some(SUFFIX), JOINER);
  }

  /** With neither, the title is the bare suffix, without a joiner. */
  lemma BareSuffix(pageTitle: Option<string>)
    requires pageTitle.None? || Blank(pageTitle.value)
    ensures Title(None, pageTitle) == SUFFIX
  {
  }

  /**
   * Every title is its heading followed by " | " and the suffix, or the suffix
   * alone exactly when there is no heading; so dropping the last 17 characters
   * gives back the heading.
   */
  lemma TitleShape(article: Option<Article>, pageTitle: Option<string>)
    ensures var t, h := Title(article, pageTitle), Heading(article, pageTitle);
      match h
      case Some(x) => t == x + JOINER + SUFFIX && t[..|t| - |JOINER + SUFFIX|] == x
      case None => t == SUFFIX
  {
    var t := Title(article, pageTitle);
    match Heading(article, pageTitle)
    case Some(x) =>
      if PresentArticle(article) {
        ArticleBranch(article.value, pageTitle);
      } else {
        PageBranch(pageTitle.value);
      }
      DropTail(t, x);
    case None =>
  }

  lemma DropTail(t: string, x: string)
    requires t == x + JOINER + SUFFIX
    ensures t[..|t| - |JOINER + SUFFIX|] == x
  {
    assert t == x + (JOINER + SUFFIX);
  }

  /** The title is the bare suffix exactly when neither an article nor a page title is present. */
  lemma BareExactly(article: Option<Article>, pageTitle: Option<string>)
    ensures Title(article, pageTitle) == SUFFIX
      <==> !PresentArticle(article) && !PresentText(pageTitle)
  {
    TitleShape(article, pageTitle);
  }
}
