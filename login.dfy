/** Login to the campus portal (login.py): the login URL, the candidate URLs,
    the 404 fallback between them and the test for rejected credentials. */
module Login {
  import opened Wrappers
  import opened Text
  import Dicts

  /** `override_path if override_path is not None else config.login_path`. */
  function ChosenPath(loginPath: string, overridePath: Option<string>): string {
    if overridePath.Some? then overridePath.value else loginPath
  }

  predicate AllSlashes(s: string) {
    forall i :: 0 <= i < |s| ==> s[i] == '/'
  }

  /** `_build_login_url(config, override_path)`. */
  function BuildLoginUrl(baseUrl: string, loginPath: string, overridePath: Option<string>): string {
    var path := LStripChar(Strip(ChosenPath(loginPath, overridePath)), '/');
    if path == [] then baseUrl else baseUrl + "/" + path
  }

  /** The login URL is the base URL alone exactly when the stripped path is
      nothing but slashes (an empty override included); otherwise it is the base
      URL, one slash and the end of the stripped path that follows its leading
      slashes, which starts with something other than a slash. */
  lemma LoginUrlShape(baseUrl: string, loginPath: string, overridePath: Option<string>)
    ensures var url := BuildLoginUrl(baseUrl, loginPath, overridePath);
      var path := Strip(ChosenPath(loginPath, overridePath));
      && (url == baseUrl <==> AllSlashes(path))
      && (url != baseUrl ==>
            && |url| > |baseUrl| + 1 && url[..|baseUrl| + 1] == baseUrl + "/"
            && var tail := url[|baseUrl| + 1..];
               && tail[0] != '/' && !IsSpace(tail[|tail| - 1])
               && |tail| <= |path| && path[|path| - |tail|..] == tail
               && AllSlashes(path[..|path| - |tail|]))
  {
    var path := Strip(ChosenPath(loginPath, overridePath));
    var p := LStripChar(path, '/');
    var url := BuildLoginUrl(baseUrl, loginPath, overridePath);
    if p != [] {
      assert path[|path| - |p|] == p[0];
      assert url[|baseUrl| + 1..] == p;
      assert url[..|baseUrl| + 1] == baseUrl + "/";
    } else {
      assert url == baseUrl;
    }
  }

  /** The candidates `authenticate` tries, in order: the base URL, then the
      configured login URL unless it is the same. */
  function Candidates(baseUrl: string, loginPath: string): seq<string> {
    var base := BuildLoginUrl(baseUrl, loginPath, Some(""));
    var explicit := BuildLoginUrl(baseUrl, loginPath, None);
    [base] + if explicit != base then [explicit] else []
  }

  /** The candidates are one or two distinct URLs: the base URL first, the
      configured login URL last, and two of them exactly when the configured path
      is more than slashes. */
  lemma CandidateList(baseUrl: string, loginPath: string)
    ensures var urls := Candidates(baseUrl, loginPath);
      && 1 <= |urls| <= 2 && Dicts.Distinct(urls)
      && urls[0] == baseUrl
      && urls[|urls| - 1] == BuildLoginUrl(baseUrl, loginPath, None)
      && (|urls| == 2 <==> !AllSlashes(Strip(loginPath)))
  {
    var urls := Candidates(baseUrl, loginPath);
    var explicit := BuildLoginUrl(baseUrl, loginPath, None);
    EmptyOverride(baseUrl, loginPath);
    AppendIfNew(baseUrl, explicit, urls);
    ExplicitIsBase(baseUrl, loginPath);
  }

  /** `urls = [a]; if b not in urls: urls.append(b)`. */
  lemma AppendIfNew(a: string, b: string, urls: seq<string>)
    requires urls == [a] + if b != a then [b] else []
    ensures 1 <= |urls| <= 2 && Dicts.Distinct(urls) && urls[0] == a && urls[|urls| - 1] == b
    ensures |urls| == 2 <==> b != a
  {
  }

  lemma ExplicitIsBase(baseUrl: string, loginPath: string)
    ensures BuildLoginUrl(baseUrl, loginPath, None) == baseUrl <==> AllSlashes(Strip(loginPath))
  {
    LoginUrlShape(baseUrl, loginPath, None);
  }

  /** An override of `""` is still an override: the URL is the base URL. */
  lemma EmptyOverride(baseUrl: string, loginPath: string)
    ensures BuildLoginUrl(baseUrl, loginPath, Some("")) == baseUrl
  {
    assert Strip("") == [];
  }

  /** The candidate list of `authenticate`. */
  method LoginCandidates(baseUrl: string, loginPath: string) returns (urls: seq<string>)
    ensures urls == Candidates(baseUrl, loginPath)
  {
    var baseLoginUrl := BuildLoginUrl(baseUrl, loginPath, Some(""));
    var explicitLoginUrl := BuildLoginUrl(baseUrl, loginPath, None);
    urls := [baseLoginUrl];
    if explicitLoginUrl !in urls {
      urls := urls + [explicitLoginUrl];
    }
  }

  /** What a GET or POST gave: a response with its status, final URL and text,
      or a request that failed without one. */
  datatype Reply = Response(status: int, url: string, text: string) | RequestFailed

  /** `raise_for_status()` raises for a 4xx or 5xx status. */
  predicate IsHttpError(status: int) {
    400 <= status < 600
  }

  /** How the handler of an HTTP error reads the status it compares with 404. */
  datatype Reading = AsWritten | Corrected

  /** `exc.response.status_code if exc.response else None`. A `requests.Response`
      is truthy only when its status is below 400, so, as written, the response
      of an HTTP error is always read as `None`; corrected, its status is read. */
  function SeenStatus(reading: Reading, status: int): Option<int> {
    match reading
    case AsWritten => if status < 400 then Some(status) else None
    case Corrected => Some(status)
  }

  /** The login page found, or the `LoginError` of the GET loop. */
  datatype LoginPage = Page(url: string, text: string) | PageFailed

  /** The GET loop from candidate `i` on, `replies[i]` being the reply to candidate `i`. */
  function FetchFrom(replies: seq<Reply>, i: nat, reading: Reading): LoginPage
    requires i <= |replies|
    decreases |replies| - i
  {
    if i == |replies| then PageFailed
    else
      match replies[i]
      case RequestFailed => PageFailed
      case Response(status, url, text) =>
        if !IsHttpError(status) then Page(url, text)
        else if SeenStatus(reading, status) == Some(404) && i + 1 < |replies| then FetchFrom(replies, i + 1, reading)
        else PageFailed
  }

  /** The GET loop of `authenticate`. */
  method FetchLoginPage(urls: seq<string>, replies: seq<Reply>, reading: Reading) returns (page: LoginPage)
    requires |replies| == |urls|
    ensures page == FetchFrom(replies, 0, reading)
  {
    var attempt := 1;
    while attempt <= |urls|
      invariant 1 <= attempt <= |urls| + 1
      invariant FetchFrom(replies, 0, reading) == FetchFrom(replies, attempt - 1, reading)
    {
      var response := replies[attempt - 1];
      if response.RequestFailed? {
        return PageFailed;
      }
      if !IsHttpError(response.status) {
        return Page(response.url, response.text);
      }
      var statusCode := SeenStatus(reading, response.status);
      if statusCode == Some(404) && attempt < |urls| {
        attempt := attempt + 1;
        continue;
      }
      return PageFailed;
    }
    return PageFailed;
  }

  /** Candidate `i` serves the page after every earlier candidate answered 404. */
  predicate ServedAfterNotFound(replies: seq<Reply>, i: nat)
    requires i < |replies|
  {
    && replies[i].Response? && !IsHttpError(replies[i].status)
    && forall j :: 0 <= j < i ==> replies[j].Response? && replies[j].status == 404
  }

  /** With the status read, the loop returns the page of the first candidate
      that answers without an error, provided every candidate before it
      answered 404; any other failure ends the login. */
  lemma {:induction false} CorrectedFallbackFrom(replies: seq<Reply>, k: nat)
    requires k <= |replies|
    requires forall j :: 0 <= j < k ==> replies[j].Response? && replies[j].status == 404
    ensures FetchFrom(replies, k, Corrected).Page? <==> exists i :: k <= i < |replies| && ServedAfterNotFound(replies, i)
    ensures forall i :: k <= i < |replies| && ServedAfterNotFound(replies, i) ==>
      FetchFrom(replies, k, Corrected) == Page(replies[i].url, replies[i].text)
    decreases |replies| - k
  {
    if k < |replies| {
      var r := replies[k];
      if r.Response? && r.status == 404 && k + 1 < |replies| {
        CorrectedFallbackFrom(replies, k + 1);
        assert !ServedAfterNotFound(replies, k);
      } else if r.Response? && !IsHttpError(r.status) {
        assert ServedAfterNotFound(replies, k);
        forall i | k < i < |replies| ensures !ServedAfterNotFound(replies, i) {
          assert replies[k].status != 404;
        }
      } else {
        assert !ServedAfterNotFound(replies, k);
        forall i | k < i < |replies| ensures !ServedAfterNotFound(replies, i) {
          assert !(replies[k].Response? && replies[k].status == 404) || k + 1 == |replies|;
        }
      }
    }
  }

  lemma CorrectedFallback(replies: seq<Reply>)
    ensures FetchFrom(replies, 0, Corrected).Page? <==> exists i :: 0 <= i < |replies| && ServedAfterNotFound(replies, i)
    ensures forall i :: 0 <= i < |replies| && ServedAfterNotFound(replies, i) ==>
      FetchFrom(replies, 0, Corrected) == Page(replies[i].url, replies[i].text)
  {
    CorrectedFallbackFrom(replies, 0);
  }

  /** As written, a 404 is never recognised, so only the first candidate is ever tried. */
  lemma AsWrittenTriesOnlyFirst(replies: seq<Reply>)
    requires replies != []
    ensures FetchFrom(replies, 0, AsWritten) == FetchFrom(replies[..1], 0, AsWritten)
  {
  }

  /** A base URL answering 404 and a login URL serving the form: as written the
      login fails; with the status read it proceeds with the second candidate. */
  lemma NotFoundFallbackLost()
    ensures var replies := [Response(404, "https://portal.example", ""), Response(200, "https://portal.example/login", "form")];
      && FetchFrom(replies, 0, AsWritten) == PageFailed
      && FetchFrom(replies, 0, Corrected) == Page("https://portal.example/login", "form")
  {
    var replies := [Response(404, "https://portal.example", ""), Response(200, "https://portal.example/login", "form")];
    assert FetchFrom(replies, 1, Corrected) == Page("https://portal.example/login", "form");
  }

  /** `"Invalid" in text or "alert" in text.lower()`: the portal refused the credentials. */
  predicate CredentialsRejected(text: string) {
    Contains(text, "Invalid") || Contains(Lower(text), "alert")
  }

  predicate OccursAt(s: string, t: string, i: nat) {
    i + |t| <= |s| && s[i..i + |t|] == t
  }

  /** `t in s` holds exactly when `t` occurs at some position of `s`. */
  lemma {:induction false} ContainsAt(s: string, t: string)
    ensures Contains(s, t) <==> exists i: nat :: OccursAt(s, t, i)
    decreases |s|
  {
    if s == [] {
      if exists i: nat :: OccursAt(s, t, i) {
        var i: nat :| OccursAt(s, t, i);
        assert t == [];
      }
      if Contains(s, t) {
        assert OccursAt(s, t, 0);
      }
    } else {
      ContainsAt(s[1..], t);
      if StartsWith(s, t) {
        assert s[0..|t|] == s[..|t|];
        assert OccursAt(s, t, 0);
      }
      if Contains(s[1..], t) {
        var i: nat :| OccursAt(s[1..], t, i);
        assert s[i + 1..i + 1 + |t|] == s[1..][i..i + |t|];
        assert OccursAt(s, t, i + 1);
      }
      if exists i: nat :: OccursAt(s, t, i) {
        var i: nat :| OccursAt(s, t, i);
        if i > 0 {
          assert s[1..][i - 1..i - 1 + |t|] == s[i..i + |t|];
          assert OccursAt(s[1..], t, i - 1);
        } else {
          assert s[..|t|] == s[i..i + |t|];
          assert StartsWith(s, t);
        }
      }
    }
  }

  /** `alert`, in any mix of upper and lower case, at position `i`. */
  predicate AlertAt(text: string, i: nat) {
    i + 5 <= |text| && Lower(text[i..i + 5]) == "alert"
  }

  /** The login is refused when the page says `Invalid` (in exactly that case)
      or `alert` in any mix of upper and lower case. */
  lemma RejectionRule(text: string)
    ensures CredentialsRejected(text) <==>
      (exists i: nat :: OccursAt(text, "Invalid", i)) || (exists i: nat :: AlertAt(text, i))
  {
    ContainsAt(text, "Invalid");
    ContainsAt(Lower(text), "alert");
    forall i: nat | i + 5 <= |text| ensures OccursAt(Lower(text), "alert", i) <==> AlertAt(text, i) {
      assert Lower(text)[i..i + 5] == Lower(text[i..i + 5]);
    }
  }

  /** `authenticate`, given the replies to the GETs of the candidates, whether
      the page holds the hidden form fields, and the reply to the POST. */
  method Authenticate(baseUrl: string, loginPath: string, getReplies: seq<Reply>, hiddenFieldsFound: bool,
                      post: Reply, reading: Reading) returns (ok: bool)
    requires |getReplies| == |Candidates(baseUrl, loginPath)|
    ensures ok <==>
      && FetchFrom(getReplies, 0, reading).Page?
      && hiddenFieldsFound
      && post.Response? && !IsHttpError(post.status)
      && !CredentialsRejected(post.text)
  {
    var urls := LoginCandidates(baseUrl, loginPath);
    var page := FetchLoginPage(urls, getReplies, reading);
    if page.PageFailed? || !hiddenFieldsFound {
      return false;
    }
    if post.RequestFailed? || IsHttpError(post.status) {
      return false;
    }
    ok := !CredentialsRejected(post.text);
  }
}
