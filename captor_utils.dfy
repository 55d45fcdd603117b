/**
 * The serializer's string helpers: inlining style sheets as text, making
 * URL-valued attributes absolute, and finding a link's style sheet.
 * Resolving a URL against a document is the browser's job and stays
 * abstract (`Browser.resolveUrl`).
 */
module CaptorUtils {
  import opened Wrappers
  import opened Strings
  import opened Dom

  /**
   * `getCssRulesString`: null when there is no sheet or its rules are
   * missing or unreadable, otherwise the rule strings folded with `reduce`
   * from the empty string.
   */
  function CssRulesString(s: Option<StyleSheet>): (r: Option<string>)
    ensures r.None? <==> (s.None? || !s.value.cssRules.Rules?)
    decreases s
  {
    match s
    case None => None
    case Some(sheet) =>
      match sheet.cssRules
      case Rules(rules) => Some(ReduceRules(rules, ""))
      case _ => None
  }

  /** `Array.from(rules).reduce(CSStoString, acc)` */
  function ReduceRules(rules: seq<CssRule>, acc: string): string
    decreases rules
  {
    if rules == [] then acc else ReduceRules(rules[1..], acc + CssRuleString(rules[0]))
  }

  /** `getCssRuleString`: an import rule stands for its nested sheet, or '' when that gives null. */
  function CssRuleString(rule: CssRule): string
    decreases rule
  {
    match rule
    case PlainRule(text) => text
    case ImportRule(sheet) => CssRulesString(sheet).GetOr("")
  }

  /** Reference definition: the rule strings one after the other. */
  function ConcatRules(rules: seq<CssRule>): string
    decreases rules
  {
    if rules == [] then "" else CssRuleString(rules[0]) + ConcatRules(rules[1..])
  }

  lemma {:induction false} ReduceIsConcat(rules: seq<CssRule>, acc: string)
    ensures ReduceRules(rules, acc) == acc + ConcatRules(rules)
  {
    if rules != [] {
      ReduceIsConcat(rules[1..], acc + CssRuleString(rules[0]));
    }
  }

  /** A readable sheet yields the in-order concatenation of its rules' strings. */
  lemma CssRulesStringIsConcatenation(s: StyleSheet)
    ensures s.cssRules.Rules? ==> CssRulesString(Some(s)) == Some(ConcatRules(s.cssRules.rules))
    ensures !s.cssRules.Rules? ==> CssRulesString(Some(s)) == None
  {
    if s.cssRules.Rules? {
      ReduceIsConcat(s.cssRules.rules, "");
      assert "" + ConcatRules(s.cssRules.rules) == ConcatRules(s.cssRules.rules);
    }
  }

  /** `extractOrigin` */
  function ExtractOrigin(url: string): string {
    var origin := if HasDoubleSlash(url) then Join(FirstPieces(url, '/', 3), "/") else Split(url, '/')[0];
    Split(origin, '?')[0]
  }

  /**
   * The origin is the beginning of the URL up to the first '?' or the
   * third '/' (the first '/' when the URL has no '//'), whichever comes
   * first, or the whole URL when it has neither.
   */
  lemma ExtractOriginValue(url: string)
    ensures var r := ExtractOrigin(url);
            var k := if HasDoubleSlash(url) then 3 else 1;
            && IsPrefix(r, url) && '?' !in r && Count(r, '/') < k
            && (|r| == |url| || url[|r|] == '?' || (url[|r|] == '/' && Count(r, '/') == k - 1))
  {
    var k := if HasDoubleSlash(url) then 3 else 1;
    var origin := Join(FirstPieces(url, '/', k), "/");
    assert "/" == ['/'];
    JoinSplitUpTo(url, '/', k);
    if !HasDoubleSlash(url) {
      assert FirstPieces(url, '/', 1) == [Split(url, '/')[0]];
    }
    FirstPiece(origin, '?');
    if '?' in origin {
      var j := IndexOfChar(origin, '?');
      CountSplit(origin, '/', j);
      assert ExtractOrigin(url) == origin[..j];
    }
  }

  /** `absoluteToDoc`: empty and whitespace-only values stay as they are. */
  function AbsoluteToDoc(b: Browser, doc: NodeRef, value: string): (r: string)
    ensures IsBlank(value) ==> r == value
    ensures !IsBlank(value) ==> r == b.resolveUrl(doc, value)
  {
    if value == "" || IsBlank(value) then value else b.resolveUrl(doc, value)
  }

  /** One comma-separated srcset item, trimmed and split at spaces. */
  function SrcsetItem(b: Browser, doc: NodeRef, item: string): string {
    UrlAndSize(b, doc, Trim(item))
  }

  /** `url` or `url size`; anything else becomes ''. */
  function UrlAndSize(b: Browser, doc: NodeRef, t: string): string {
    var urlAndSize := Split(t, ' ');
    if |urlAndSize| == 2 then AbsoluteToDoc(b, doc, urlAndSize[0]) + " " + urlAndSize[1]
    else if |urlAndSize| == 1 then AbsoluteToDoc(b, doc, urlAndSize[0])
    else ""
  }

  /** `getAbsoluteSrcsetString` */
  function AbsoluteSrcsetString(b: Browser, doc: NodeRef, value: string): (r: string)
    ensures IsBlank(value) ==> r == value
  {
    if IsBlank(value) then value
    else
      var items := Split(value, ',');
      Join(seq(|items|, i requires 0 <= i < |items| => SrcsetItem(b, doc, items[i])), ", ")
  }

  /** A string with exactly one separator splits into the parts before and after it. */
  lemma SplitOneSeparator(t: string, c: char)
    requires Count(t, c) == 1
    ensures c in t
    ensures Split(t, c) == [t[..IndexOfChar(t, c)], t[IndexOfChar(t, c) + 1..]]
  {
    CountPositive(t, c);
    SplitCount(t, c);
    var i := IndexOfChar(t, c);
    var rest := t[i + 1..];
    assert Split(t, c) == [t[..i]] + Split(rest, c);
    SplitCount(rest, c);
    CountPositive(rest, c);
  }

  /**
   * A trimmed item is classified by the spaces inside it: none gives the
   * resolved url, one gives the resolved url, a space and the size, more
   * give ''.
   */
  lemma UrlAndSizeBySpaces(b: Browser, doc: NodeRef, t: string)
    ensures Count(t, ' ') == 0 ==> UrlAndSize(b, doc, t) == AbsoluteToDoc(b, doc, t)
    ensures Count(t, ' ') == 1 ==>
      ' ' in t &&
      var i := IndexOfChar(t, ' ');
      UrlAndSize(b, doc, t) == AbsoluteToDoc(b, doc, t[..i]) + " " + t[i + 1..]
    ensures Count(t, ' ') >= 2 ==> UrlAndSize(b, doc, t) == ""
  {
    SplitCount(t, ' ');
    CountPositive(t, ' ');
    if Count(t, ' ') == 1 {
      SplitOneSeparator(t, ' ');
    }
  }

  /**
   * `transformAttribute`: 'src' is always resolved, 'href' and 'srcset' only
   * when non-empty; other attributes, and blank values of any attribute,
   * pass through unchanged.
   */
  function TransformAttribute(b: Browser, doc: NodeRef, name: string, value: string): (r: string)
    ensures name != "src" && name != "href" && name != "srcset" ==> r == value
    ensures IsBlank(value) ==> r == value
    ensures (name == "src" || name == "href") && !IsBlank(value) ==> r == b.resolveUrl(doc, value)
    ensures name == "srcset" && !IsBlank(value) ==> r == AbsoluteSrcsetString(b, doc, value)
  {
    if name == "src" || (name == "href" && value != "") then AbsoluteToDoc(b, doc, value)
    else if name == "srcset" && value != "" then AbsoluteSrcsetString(b, doc, value)
    else value
  }

  /** `getStylesheet`: the first sheet of the document whose href equals the link's href. */
  function GetStylesheet(sheets: seq<StyleSheet>, href: string): (r: Option<StyleSheet>)
    ensures r.None? <==> forall k :: 0 <= k < |sheets| ==> sheets[k].href != Some(href)
    ensures r.Some? ==> exists k :: (0 <= k < |sheets| && sheets[k] == r.value && r.value.href == Some(href)
                                     && forall j :: 0 <= j < k ==> sheets[j].href != Some(href))
  {
    if sheets == [] then None
    else if sheets[0].href == Some(href) then Some(sheets[0])
    else
      var r := GetStylesheet(sheets[1..], href);
      assert forall k :: 0 <= k < |sheets| - 1 ==> sheets[1..][k] == sheets[k + 1];
      r
  }
}
