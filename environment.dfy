/**
 * Browser environment detection of src/utils/downloadUtils.ts: which in-app WebView (if any) a
 * user-agent string belongs to, whether it is mobile, desktop or iOS Safari, and the display name
 * of a WebView app. The user-agent string is a parameter; `None` stands for a page rendered
 * without `window` or `navigator`.
 */
module Environment {
  import opened Outcome
  import opened Text

  datatype App = WeChat | Douyin | Xiaohongshu | Weibo | QQ | UnknownApp

  datatype EnvironmentInfo = EnvironmentInfo(
    isIOSSafari: bool,
    isWebView: bool,
    isDesktop: bool,
    isMobile: bool,
    webViewApp: Option<App>)

  /** The WebView signatures, in the order they are tried; matched case-sensitively. */
  const WebViewPatterns: seq<(string, App)> := [
    ("MicroMessenger", WeChat),
    ("BytedanceWebview", Douyin),
    ("Aweme", Douyin),
    ("xhsdiscover", Xiaohongshu),
    ("discover", Xiaohongshu),
    ("Weibo", Weibo),
    ("QQ", QQ)
  ]

  /** `/iPhone|iPad|iPod|Android/i` */
  predicate IsMobileAgent(ua: string) {
    ContainsIgnoreCase(ua, "iPhone") || ContainsIgnoreCase(ua, "iPad")
    || ContainsIgnoreCase(ua, "iPod") || ContainsIgnoreCase(ua, "Android")
  }

  /** `/iPhone|iPad|iPod/i` */
  predicate IsIOSAgent(ua: string) {
    ContainsIgnoreCase(ua, "iPhone") || ContainsIgnoreCase(ua, "iPad") || ContainsIgnoreCase(ua, "iPod")
  }

  /** `/Safari/i` */
  predicate MentionsSafari(ua: string) {
    ContainsIgnoreCase(ua, "Safari")
  }

  /** `/CriOS|FxiOS|EdgiOS|OPiOS/i`: another browser engine wrapped on iOS. */
  predicate IsOtherIOSBrowser(ua: string) {
    ContainsIgnoreCase(ua, "CriOS") || ContainsIgnoreCase(ua, "FxiOS")
    || ContainsIgnoreCase(ua, "EdgiOS") || ContainsIgnoreCase(ua, "OPiOS")
  }

  /** The signals of a WebView of an unknown app: `/\bwv\b/i`, `/WebView/i`, or iOS without Safari. */
  predicate GenericWebViewSignal(ua: string) {
    ContainsWordIgnoreCase(ua, "wv") || ContainsIgnoreCase(ua, "WebView")
    || (IsIOSAgent(ua) && !MentionsSafari(ua))
  }

  /** Pattern `i` is the first pattern `ua` contains. */
  predicate FirstPatternAt(ua: string, i: int) {
    0 <= i < |WebViewPatterns| && Contains(ua, WebViewPatterns[i].0)
    && forall j :: 0 <= j < i ==> !Contains(ua, WebViewPatterns[j].0)
  }

  /** `ua` contains none of the patterns. */
  predicate NoPattern(ua: string) {
    forall i :: 0 <= i < |WebViewPatterns| ==> !Contains(ua, WebViewPatterns[i].0)
  }

  /** The loop over the patterns with its `break`: the app of the first pattern `ua` contains. */
  method FindWebViewApp(ua: string) returns (app: Option<App>)
    ensures app.None? <==> NoPattern(ua)
    ensures app.Some? ==> exists i :: FirstPatternAt(ua, i) && WebViewPatterns[i].1 == app.value
    ensures app != Some(UnknownApp)
  {
    app := None;
    var i := 0;
    while i < |WebViewPatterns|
      invariant 0 <= i <= |WebViewPatterns|
      invariant forall j :: 0 <= j < i ==> !Contains(ua, WebViewPatterns[j].0)
    {
      var (pattern, found) := WebViewPatterns[i];
      if Contains(ua, pattern) {
        app := Some(found);
        break;
      }
      i := i + 1;
    }
  }

  /** `detectEnvironment()` for the user agent `ua`, or for no browser at all. */
  method DetectEnvironment(ua: Option<string>) returns (env: EnvironmentInfo)
    ensures ua.None? ==> env == EnvironmentInfo(false, false, true, false, None)
    ensures ua.Some? ==> env.isMobile == IsMobileAgent(ua.value) && env.isDesktop == !env.isMobile
    ensures env.isWebView <==> env.webViewApp.Some?
    ensures ua.Some? ==>
      (env.webViewApp == Some(UnknownApp) <==>
        NoPattern(ua.value) && IsMobileAgent(ua.value) && GenericWebViewSignal(ua.value))
    ensures ua.Some? && env.webViewApp.Some? && env.webViewApp != Some(UnknownApp) ==>
      exists i :: FirstPatternAt(ua.value, i) && WebViewPatterns[i].1 == env.webViewApp.value
    ensures ua.Some? && !NoPattern(ua.value) ==>
      env.webViewApp.Some? && exists i :: FirstPatternAt(ua.value, i) && WebViewPatterns[i].1 == env.webViewApp.value
    ensures ua.Some? ==>
      (env.isIOSSafari <==>
        IsIOSAgent(ua.value) && MentionsSafari(ua.value) && !IsOtherIOSBrowser(ua.value) && !env.isWebView)
    ensures env.isIOSSafari ==> env.isMobile && !env.isDesktop && !env.isWebView
  {
    if ua.None? {
      return EnvironmentInfo(false, false, true, false, None);
    }
    var s := ua.value;
    var isMobile := IsMobileAgent(s);
    var isIOS := IsIOSAgent(s);
    var app := FindWebViewApp(s);
    var isGenericWebView := app.None? && isMobile && GenericWebViewSignal(s);
    if isGenericWebView {
      app := Some(UnknownApp);
    }
    var isWebView := app.Some?;
    var isIOSSafari := isIOS && MentionsSafari(s) && !IsOtherIOSBrowser(s) && !isWebView;
    return EnvironmentInfo(isIOSSafari, isWebView, !isMobile, isMobile, app);
  }

  /** `getWebViewAppName(app)`: the name shown to the user. */
  function AppName(app: Option<App>): string {
    match app
    case None => "当前应用"
    case Some(WeChat) => "微信"
    case Some(Douyin) => "抖音"
    case Some(Xiaohongshu) => "小红书"
    case Some(Weibo) => "微博"
    case Some(QQ) => "QQ"
    case Some(UnknownApp) => "当前应用"
  }

  /** Every detected app has its own name; no app and an unknown app share the generic one. */
  lemma AppNamesDistinct(a: App, b: App)
    ensures AppName(Some(a)) == AppName(Some(b)) <==> a == b
    ensures AppName(None) == AppName(Some(UnknownApp))
  {
  }
}
