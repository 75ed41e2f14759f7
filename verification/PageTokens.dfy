/** Tokens that allow a client to ask only for the page it is on and the pages next to it.

    A token is a message authentication code of a page number in base64; `mac` stands for it, with the key
    of the service and the printing of the number inside. */
module PageTokens {
  import opened Bytes
  import opened Common

  datatype CurrentPageToken = CurrentPageToken(path: Option<string>, token: string)

  datatype Pagination = Pagination(path: Option<string>, pageNumber: int, pageSize: int)

  datatype PageError = TokenIsMissing(path: Option<string>) | PageIsNotAllowed(path: Option<string>)

  type Mac = int -> string

  ghost predicate Injective(mac: Mac) {
    forall m, n :: mac(m) == mac(n) ==> m == n
  }

  /** A code has 32 bytes. */
  ghost predicate Base64OfDigests(mac: Mac) {
    forall n :: IsBase64OfDigest(mac(n))
  }

  ghost predicate IsBase64OfDigest(token: string) {
    exists digest: seq<byte> :: |digest| == 32 && token == ToBase64(digest)
  }

  /** The token of the first entry with the path. */
  function FindToken(tokens: seq<CurrentPageToken>, path: Option<string>): (r: Option<string>)
    ensures r.Some? <==> exists i :: 0 <= i < |tokens| && tokens[i].path == path
    ensures r.Some? ==> exists i :: 0 <= i < |tokens| && tokens[i] == CurrentPageToken(path, r.value)
                                    && forall j :: 0 <= j < i ==> tokens[j].path != path
  {
    if tokens == [] then None
    else if tokens[0].path == path then Some(tokens[0].token)
    else
      var rest := FindToken(tokens[1..], path);
      assert forall i :: 1 <= i < |tokens| ==> tokens[i] == tokens[1..][i - 1];
      rest
  }

  /** The error that is thrown, if any. */
  function TryEnsurePreviousOrNextPageIsRequested(mac: Mac, tokens: seq<CurrentPageToken>,
                                                  paginations: seq<Pagination>): Option<PageError>
  {
    if paginations == [] then None
    else
      var pagination := paginations[0];
      var token := FindToken(tokens, pagination.path);
      if token.None? then Some(TokenIsMissing(pagination.path))
      else if mac(pagination.pageNumber) != token.value && token.value != mac(pagination.pageNumber - 1)
              && token.value != mac(pagination.pageNumber + 1)
      then Some(PageIsNotAllowed(pagination.path))
      else TryEnsurePreviousOrNextPageIsRequested(mac, tokens, paginations[1..])
  }

  function CreateCurrentPageTokens(mac: Mac, paginations: seq<Pagination>): (r: seq<CurrentPageToken>)
    ensures |r| == |paginations|
    ensures forall i :: 0 <= i < |r| ==> r[i] == CurrentPageToken(paginations[i].path, mac(paginations[i].pageNumber))
  {
    seq(|paginations|, i requires 0 <= i < |paginations| =>
      CurrentPageToken(paginations[i].path, mac(paginations[i].pageNumber)))
  }

  datatype Request = Request(tokens: seq<CurrentPageToken>, paginations: seq<Pagination>)

  predicate Accepted(mac: Mac, r: Request) {
    TryEnsurePreviousOrNextPageIsRequested(mac, r.tokens, r.paginations).None?
  }

  predicate Fetches(r: Request, page: int) {
    exists i :: 0 <= i < |r.paginations| && r.paginations[i].pageNumber == page
  }

  /** The token is the one of the page or of a page next to it. */
  predicate Near(mac: Mac, token: string, page: int) {
    token == mac(page - 1) || token == mac(page) || token == mac(page + 1)
  }

  predicate Allowed(mac: Mac, tokens: seq<CurrentPageToken>, pagination: Pagination) {
    var token := FindToken(tokens, pagination.path);
    token.Some? && Near(mac, token.value, pagination.pageNumber)
  }

  /** A request is accepted exactly when every pagination is allowed; otherwise the error names the
      first that is not, and says whether there was no token for it. */
  lemma {:induction false} ErrorNamesFirstDisallowed(mac: Mac, tokens: seq<CurrentPageToken>,
                                                     paginations: seq<Pagination>)
    returns (k: nat)
    ensures k <= |paginations| && forall i :: 0 <= i < k ==> Allowed(mac, tokens, paginations[i])
    ensures k < |paginations| ==>
              && !Allowed(mac, tokens, paginations[k])
              && TryEnsurePreviousOrNextPageIsRequested(mac, tokens, paginations)
                 == Some(if forall j :: 0 <= j < |tokens| ==> tokens[j].path != paginations[k].path
                         then TokenIsMissing(paginations[k].path) else PageIsNotAllowed(paginations[k].path))
    ensures k == |paginations| ==> TryEnsurePreviousOrNextPageIsRequested(mac, tokens, paginations).None?
    decreases |paginations|
  {
    k := 0;
    if paginations != [] && Allowed(mac, tokens, paginations[0]) {
      k := ErrorNamesFirstDisallowed(mac, tokens, paginations[1..]);
      k := k + 1;
    }
  }

  /** Some accepted request fetched the page. */
  predicate Fetched(mac: Mac, rs: seq<Request>, page: int) {
    exists k :: 0 <= k < |rs| && Accepted(mac, rs[k]) && Fetches(rs[k], page)
  }

  /** Of an accepted request every page is at most one away from the page of one of its tokens. */
  lemma {:induction false} AcceptedPagesAreNear(mac: Mac, tokens: seq<CurrentPageToken>, paginations: seq<Pagination>,
                                                i: nat)
    requires TryEnsurePreviousOrNextPageIsRequested(mac, tokens, paginations).None? && i < |paginations|
    ensures exists n, j :: 0 <= j < |tokens| && tokens[j].token == mac(n) &&
                           paginations[i].pageNumber - 1 <= n <= paginations[i].pageNumber + 1
    decreases |paginations|
  {
    if i == 0 {
      var page, token := paginations[0].pageNumber, FindToken(tokens, paginations[0].path);
      var j :| 0 <= j < |tokens| && tokens[j].token == token.value;
      var n := if token.value == mac(page) then page else if token.value == mac(page - 1) then page - 1 else page + 1;
      assert tokens[j].token == mac(n);
    } else {
      AcceptedPagesAreNear(mac, tokens, paginations[1..], i - 1);
    }
  }

  // ---------------------------------------------------------------------------------------------
  // Validation of arguments
  // ---------------------------------------------------------------------------------------------

  predicate IsLetter(c: char) {
    'a' <= c <= 'z' || 'A' <= c <= 'Z'
  }

  predicate IsDigit(c: char) {
    '0' <= c <= '9'
  }

  /** Between 1 and 64 letters and digits. */
  predicate ValidToken(token: string) {
    1 <= |token| <= 64 && forall i :: 0 <= i < |token| ==> IsLetter(token[i]) || IsDigit(token[i])
  }

  predicate IsDottedName(name: string) {
    && name != [] && (IsLetter(name[0]) || name[0] == '_')
    && forall i :: 1 <= i < |name| ==> IsLetter(name[i]) || IsDigit(name[i]) || name[i] == '_' || name[i] == '.'
  }

  predicate ValidPath(path: Option<string>) {
    path.Some? ==> |path.value| <= 2048 && (path.value == "" || path.value == "*" || IsDottedName(path.value))
  }

  /** What the validation of a service function's argument lets through. */
  predicate PassesValidation(r: Request) {
    && |r.tokens| <= 100 && |r.paginations| <= 100
    && (forall i :: 0 <= i < |r.tokens| ==> ValidPath(r.tokens[i].path) && ValidToken(r.tokens[i].token))
    && (forall i :: 0 <= i < |r.paginations| ==> ValidPagination(r.paginations[i]))
  }

  predicate ValidPagination(p: Pagination) {
    ValidPath(p.path) && 1 <= p.pageNumber <= 100 && 1 <= p.pageSize <= 100
  }

  /** A letter or a digit, by its number. */
  predicate IsAlphanumeric(c: int) {
    65 <= c <= 90 || 97 <= c <= 122 || 48 <= c <= 57
  }

  /** What the field of a token lets through. */
  lemma ValidTokenExactly(token: string)
    ensures ValidToken(token) <==>
            0 < |token| < 65 && forall i :: 0 <= i < |token| ==> IsAlphanumeric(token[i] as int)
  {
    forall i | 0 <= i < |token|
      ensures IsLetter(token[i]) || IsDigit(token[i]) <==> IsAlphanumeric(token[i] as int)
    {
    }
  }

  /** What the field of a path lets through: nothing, everything, or names with dots that start with a letter or
      an underscore (95); a dot has the number 46. */
  lemma ValidPathExactly(path: string)
    ensures ValidPath(None)
    ensures ValidPath(Some(path)) <==>
              && |path| <= 2048
              && (path == "" || path == "*"
                  || ((path[0] as int == 95 || (path[0] as int >= 65 && IsAlphanumeric(path[0] as int)))
                      && forall i :: 1 <= i < |path| ==>
                           path[i] as int == 95 || path[i] as int == 46 || IsAlphanumeric(path[i] as int)))
  {
  }

  /** Pages and page sizes are limited to a hundred. */
  lemma ValidPaginationExactly(pageNumber: int, pageSize: int)
    ensures ValidPagination(Pagination(None, pageNumber, pageSize)) <==> 0 < pageNumber < 101 && 0 < pageSize < 101
  {
  }

  /** A request may hold at most a hundred tokens and at most a hundred paginations. */
  lemma ValidCounts(tokens: seq<CurrentPageToken>, paginations: seq<Pagination>)
    requires forall i :: 0 <= i < |tokens| ==> tokens[i] == CurrentPageToken(None, "a")
    requires forall i :: 0 <= i < |paginations| ==> paginations[i] == Pagination(None, 1, 100)
    ensures PassesValidation(Request(tokens, paginations)) <==> |tokens| < 101 && |paginations| < 101
  {
    ValidTokenExactly("a");
    assert forall i :: 0 <= i < |paginations| ==> ValidPagination(paginations[i]);
  }

  /** The base64 of 32 bytes ends in a character that is neither a letter nor a digit. */
  lemma IssuedTokensAreInvalid(token: string)
    requires IsBase64OfDigest(token)
    ensures !ValidToken(token)
  {
    var digest: seq<byte> :| |digest| == 32 && token == ToBase64(digest);
    assert Padding(digest) == "=";
    assert token[|token| - 1] == '=';
  }

  lemma FoundTokenIsValid(r: Request, path: Option<string>)
    requires PassesValidation(r) && FindToken(r.tokens, path).Some?
    ensures ValidToken(FindToken(r.tokens, path).value)
  {
    var i :| 0 <= i < |r.tokens| && r.tokens[i].token == FindToken(r.tokens, path).value;
  }

  /** Of the requests that pass validation exactly those without paginations are accepted. */
  lemma ValidRequestsFetchNothing(mac: Mac, r: Request)
    requires Base64OfDigests(mac) && PassesValidation(r)
    ensures Accepted(mac, r) <==> r.paginations == []
  {
    if r.paginations != [] {
      var page, path := r.paginations[0].pageNumber, r.paginations[0].path;
      if FindToken(r.tokens, path).Some? {
        FoundTokenIsValid(r, path);
        IssuedTokensAreInvalid(mac(page - 1));
        IssuedTokensAreInvalid(mac(page));
        IssuedTokensAreInvalid(mac(page + 1));
      }
    }
  }

  // ---------------------------------------------------------------------------------------------
  // Runs
  // ---------------------------------------------------------------------------------------------

  /** The page's token was handed out. */
  predicate Issued(mac: Mac, issued: set<string>, page: int) {
    mac(page) in issued
  }

  /** The client replays tokens it was given, or makes up texts that are no tokens. */
  ghost predicate Unforged(mac: Mac, issued: set<string>, r: Request) {
    forall j, n :: 0 <= j < |r.tokens| && r.tokens[j].token == mac(n) ==> Issued(mac, issued, n)
  }

  /** A rejected request is answered without tokens. */
  function Step(mac: Mac, issued: set<string>, r: Request): set<string> {
    if Accepted(mac, r) then issued + set t | t in CreateCurrentPageTokens(mac, r.paginations) :: t.token else issued
  }

  function After(mac: Mac, issued: set<string>, rs: seq<Request>): set<string> {
    if rs == [] then issued else Step(mac, After(mac, issued, rs[..|rs| - 1]), rs[|rs| - 1])
  }

  function AcceptedCount(mac: Mac, rs: seq<Request>): nat {
    if rs == [] then 0
    else AcceptedCount(mac, rs[..|rs| - 1]) + if Accepted(mac, rs[|rs| - 1]) then 1 else 0
  }

  function AcceptedPlaces(mac: Mac, rs: seq<Request>): set<nat> {
    set k: nat | k < |rs| && Accepted(mac, rs[k])
  }

  lemma PlacesStep(mac: Mac, rs: seq<Request>)
    requires rs != []
    ensures var n: nat := |rs| - 1;
            var before := AcceptedPlaces(mac, rs[..n]);
            AcceptedPlaces(mac, rs) == (if Accepted(mac, rs[n]) then before + {n} else before) && n !in before
  {
    var n: nat := |rs| - 1;
    var all, before := AcceptedPlaces(mac, rs), AcceptedPlaces(mac, rs[..n]);
    forall k: nat
      ensures k in all <==> k in before || (k == n && Accepted(mac, rs[n]))
    {
      if k < n {
        assert rs[..n][k] == rs[k];
      }
    }
  }

  /** The count is the number of accepted requests. */
  lemma {:induction false} AcceptedCountExactly(mac: Mac, rs: seq<Request>)
    ensures AcceptedCount(mac, rs) == |AcceptedPlaces(mac, rs)|
    decreases |rs|
  {
    if rs == [] {
      assert AcceptedPlaces(mac, rs) == {};
    } else {
      PlacesStep(mac, rs);
      AcceptedCountExactly(mac, rs[..|rs| - 1]);
    }
  }

  ghost predicate Run(mac: Mac, issued: set<string>, rs: seq<Request>) {
    rs == [] ||
    var init := rs[..|rs| - 1];
    Run(mac, issued, init) && Unforged(mac, After(mac, issued, init), rs[|rs| - 1])
  }

  /** A run of requests that pass validation fetches no page and hands out no token. */
  lemma {:induction false} ValidRunsIssueNothing(mac: Mac, issued: set<string>, rs: seq<Request>)
    requires Base64OfDigests(mac) && forall k :: 0 <= k < |rs| ==> PassesValidation(rs[k])
    ensures After(mac, issued, rs) == issued && forall page :: !Fetched(mac, rs, page)
    decreases |rs|
  {
    if rs == [] {
    } else {
      var init, last := rs[..|rs| - 1], rs[|rs| - 1];
      ValidRunsIssueNothing(mac, issued, init);
      forall k | 0 <= k < |rs|
        ensures Accepted(mac, rs[k]) <==> rs[k].paginations == []
      {
        ValidRequestsFetchNothing(mac, rs[k]);
      }
      assert CreateCurrentPageTokens(mac, []) == [];
    }
  }

  ghost predicate Contiguous(mac: Mac, issued: set<string>) {
    forall a, b, c :: Issued(mac, issued, a) && Issued(mac, issued, b) && a <= c <= b ==> Issued(mac, issued, c)
  }

  lemma StepIssues(mac: Mac, issued: set<string>, r: Request, page: int)
    requires Injective(mac)
    ensures Issued(mac, Step(mac, issued, r), page) <==>
            Issued(mac, issued, page) || (Accepted(mac, r) && Fetches(r, page))
  {
    var created := CreateCurrentPageTokens(mac, r.paginations);
    if Accepted(mac, r) && Fetches(r, page) {
      var i :| 0 <= i < |r.paginations| && r.paginations[i].pageNumber == page;
      assert created[i] in created;
    }
  }

  /** Every page handed out by a step is at most one away from a page handed out before. */
  lemma StepIsNear(mac: Mac, issued: set<string>, r: Request, page: int) returns (near: int)
    requires Injective(mac) && Unforged(mac, issued, r) && Issued(mac, Step(mac, issued, r), page)
    ensures Issued(mac, issued, near) && near - 1 <= page <= near + 1
    ensures !Accepted(mac, r) ==> near == page
  {
    near := page;
    if !Issued(mac, issued, page) {
      StepIssues(mac, issued, r, page);
      var i :| 0 <= i < |r.paginations| && r.paginations[i].pageNumber == page;
      AcceptedPagesAreNear(mac, r.tokens, r.paginations, i);
      var n, j :| 0 <= j < |r.tokens| && r.tokens[j].token == mac(n) && page - 1 <= n <= page + 1;
      near := n;
    }
  }

  lemma StepStaysContiguous(mac: Mac, issued: set<string>, r: Request)
    requires Injective(mac) && Unforged(mac, issued, r) && Contiguous(mac, issued)
    ensures Contiguous(mac, Step(mac, issued, r))
  {
    var after := Step(mac, issued, r);
    forall a, b, c | Issued(mac, after, a) && Issued(mac, after, b) && a <= c <= b
      ensures Issued(mac, after, c)
    {
      var a' := StepIsNear(mac, issued, r, a);
      var b' := StepIsNear(mac, issued, r, b);
      StepIssues(mac, issued, r, c);
      if a' <= c <= b' {
        assert Issued(mac, issued, c);
      }
    }
  }

  /** Whatever is requested, the pages whose tokens were handed out stay one contiguous range. */
  lemma {:induction false} IssuedPagesStayContiguous(mac: Mac, issued: set<string>, rs: seq<Request>)
    requires Injective(mac) && Run(mac, issued, rs) && Contiguous(mac, issued)
    ensures Contiguous(mac, After(mac, issued, rs))
    decreases |rs|
  {
    if rs == [] {
    } else {
      var init := rs[..|rs| - 1];
      IssuedPagesStayContiguous(mac, issued, init);
      StepStaysContiguous(mac, After(mac, issued, init), rs[|rs| - 1]);
    }
  }

  ghost predicate Within(mac: Mac, issued: set<string>, lo: int, hi: int) {
    forall n :: Issued(mac, issued, n) ==> lo <= n <= hi
  }

  /** Each accepted request widens the range by at most one page on each side. */
  lemma {:induction false} OnePageAtATime(mac: Mac, issued: set<string>, rs: seq<Request>, lo: int, hi: int)
    requires Injective(mac) && Run(mac, issued, rs) && Within(mac, issued, lo, hi)
    ensures Within(mac, After(mac, issued, rs), lo - AcceptedCount(mac, rs), hi + AcceptedCount(mac, rs))
    decreases |rs|
  {
    if rs == [] {
    } else {
      var init, last := rs[..|rs| - 1], rs[|rs| - 1];
      OnePageAtATime(mac, issued, init, lo, hi);
      forall n | Issued(mac, After(mac, issued, rs), n)
        ensures lo - AcceptedCount(mac, rs) <= n <= hi + AcceptedCount(mac, rs)
      {
        var near := StepIsNear(mac, After(mac, issued, init), last, n);
      }
    }
  }

  lemma {:induction false} IssuedWasFetched(mac: Mac, issued: set<string>, rs: seq<Request>, page: int)
    requires Injective(mac) && Issued(mac, After(mac, issued, rs), page) && !Issued(mac, issued, page)
    ensures Fetched(mac, rs, page)
    decreases |rs|
  {
    var init, last := rs[..|rs| - 1], rs[|rs| - 1];
    StepIssues(mac, After(mac, issued, init), last, page);
    if Issued(mac, After(mac, issued, init), page) {
      IssuedWasFetched(mac, issued, init, page);
      var k :| 0 <= k < |init| && Accepted(mac, init[k]) && Fetches(init[k], page);
      assert rs[k] == init[k];
    } else {
      assert Accepted(mac, rs[|rs| - 1]) && Fetches(rs[|rs| - 1], page);
    }
  }

  /** A client that has only the token of page 1 and gets to page p has made at least p - 1 accepted
      requests, and fetched every page on the way. */
  lemma NoPageIsSkipped(mac: Mac, rs: seq<Request>, p: int)
    requires Injective(mac) && Run(mac, {mac(1)}, rs) && Issued(mac, After(mac, {mac(1)}, rs), p) && 1 < p
    ensures AcceptedCount(mac, rs) >= p - 1
    ensures forall c :: 1 < c <= p ==> Fetched(mac, rs, c)
  {
    var start := {mac(1)};
    OnePageAtATime(mac, start, rs, 1, 1);
    IssuedPagesStayContiguous(mac, start, rs);
    IssuedStays(mac, start, rs, 1);
    forall c | 1 < c <= p
      ensures Fetched(mac, rs, c)
    {
      assert Issued(mac, After(mac, start, rs), c);
      IssuedWasFetched(mac, start, rs, c);
    }
  }

  lemma {:induction false} IssuedStays(mac: Mac, issued: set<string>, rs: seq<Request>, page: int)
    requires Issued(mac, issued, page)
    ensures Issued(mac, After(mac, issued, rs), page)
    decreases |rs|
  {
    if rs == [] {
    } else {
      IssuedStays(mac, issued, rs[..|rs| - 1], page);
    }
  }

  function Forward(mac: Mac, path: Option<string>, from: int): Request {
    Request([CurrentPageToken(path, mac(from))], [Pagination(path, from + 1, 1)])
  }

  function Walk(mac: Mac, path: Option<string>, p: nat): seq<Request>
    requires p >= 1
  {
    if p == 1 then [] else Walk(mac, path, p - 1) + [Forward(mac, path, p - 1)]
  }

  lemma {:induction false} ForwardIsAccepted(mac: Mac, path: Option<string>, from: int)
    ensures Accepted(mac, Forward(mac, path, from)) && Fetches(Forward(mac, path, from), from + 1)
  {
    var r := Forward(mac, path, from);
    assert r.tokens[0].path == path && r.paginations[0].pageNumber == from + 1;
    assert r.paginations[1..] == [];
  }

  /** Such a request passes validation if and only if path, token and page do. */
  lemma ForwardPassesExactly(mac: Mac, path: Option<string>, from: int)
    ensures PassesValidation(Forward(mac, path, from)) <==> ValidPath(path) && ValidToken(mac(from)) && 0 <= from < 100
  {
    var r := Forward(mac, path, from);
    assert r.tokens[0] == CurrentPageToken(path, mac(from)) && r.paginations[0] == Pagination(path, from + 1, 1);
  }

  lemma {:induction false} WalkIsForward(mac: Mac, path: Option<string>, p: nat)
    requires p >= 1
    ensures |Walk(mac, path, p)| == p - 1
    ensures forall k :: 0 <= k < p - 1 ==> Walk(mac, path, p)[k] == Forward(mac, path, k + 1)
  {
    if p > 1 {
      WalkIsForward(mac, path, p - 1);
    }
  }

  predicate AllPassValidation(rs: seq<Request>) {
    forall k :: 0 <= k < |rs| ==> PassesValidation(rs[k])
  }

  /** The tokens of the pages before p. */
  predicate TokensAreValid(mac: Mac, p: int) {
    forall n :: 1 <= n < p ==> ValidToken(mac(n))
  }

  lemma WalkPassesExactly(mac: Mac, path: Option<string>, p: nat)
    requires p >= 1
    ensures AllPassValidation(Walk(mac, path, p)) <==> p == 1 || (ValidPath(path) && p <= 100 && TokensAreValid(mac, p))
  {
    var walk := Walk(mac, path, p);
    WalkIsForward(mac, path, p);
    forall n | 1 <= n < p
      ensures PassesValidation(walk[n - 1]) <==> ValidPath(path) && ValidToken(mac(n)) && n < 100
    {
      ForwardPassesExactly(mac, path, n);
    }
    if p > 1 && AllPassValidation(walk) {
      assert PassesValidation(walk[1 - 1]) && PassesValidation(walk[p - 1 - 1]);
      forall n | 1 <= n < p ensures ValidToken(mac(n)) {
        assert PassesValidation(walk[n - 1]);
      }
    }
    if p > 1 && ValidPath(path) && p <= 100 && TokensAreValid(mac, p) {
      forall k | 0 <= k < |walk| ensures PassesValidation(walk[k]) {
        assert ValidToken(mac(k + 1));
        ForwardPassesExactly(mac, path, k + 1);
      }
    }
  }

  lemma {:induction false} WalkRuns(mac: Mac, path: Option<string>, p: nat)
    requires Injective(mac) && p >= 1
    ensures Run(mac, {mac(1)}, Walk(mac, path, p)) && AcceptedCount(mac, Walk(mac, path, p)) == p - 1
    ensures Issued(mac, After(mac, {mac(1)}, Walk(mac, path, p)), p)
  {
    if p > 1 {
      var walk, last := Walk(mac, path, p), Forward(mac, path, p - 1);
      WalkRuns(mac, path, p - 1);
      ForwardIsAccepted(mac, path, p - 1);
      assert walk[..|walk| - 1] == Walk(mac, path, p - 1) && walk[|walk| - 1] == last;
      StepIssues(mac, After(mac, {mac(1)}, Walk(mac, path, p - 1)), last, p);
    }
  }

  /** And for the data store p - 1 requests are enough; they pass the validation of arguments if and only if
      their path, their tokens and their pages do. */
  lemma WalkReachesThePage(mac: Mac, path: Option<string>, p: nat)
    requires Injective(mac) && p >= 1
    ensures var walk := Walk(mac, path, p);
            && Run(mac, {mac(1)}, walk) && AcceptedCount(mac, walk) == p - 1
            && Issued(mac, After(mac, {mac(1)}, walk), p)
            && (AllPassValidation(walk) <==> p == 1 || (ValidPath(path) && p <= 100 && TokensAreValid(mac, p)))
  {
    WalkRuns(mac, path, p);
    WalkPassesExactly(mac, path, p);
  }

  /** The first token has to come from elsewhere: a client without tokens is never given one. */
  lemma {:induction false} NoTokenWithoutToken(mac: Mac, rs: seq<Request>)
    requires Injective(mac) && Run(mac, {}, rs)
    ensures After(mac, {}, rs) == {}
    decreases |rs|
  {
    if rs == [] {
    } else {
      var init, last := rs[..|rs| - 1], rs[|rs| - 1];
      NoTokenWithoutToken(mac, init);
      var created := CreateCurrentPageTokens(mac, last.paginations);
      forall t | t in created
        ensures !Accepted(mac, last)
      {
        var i :| 0 <= i < |created| && created[i] == t;
        StepIssues(mac, {}, last, last.paginations[i].pageNumber);
        if Accepted(mac, last) {
          var near := StepIsNear(mac, {}, last, last.paginations[i].pageNumber);
        }
      }
    }
  }

  /** Tokens are not bound to what is paginated: for the data store the token of a page of one list admits
      to the next page of any other list, of which no page has been fetched.  The last request passes the
      validation of arguments if and only if its path, its token and its page do. */
  lemma TokensAreNotBoundToPaths(mac: Mac, walked: Option<string>, other: Option<string>, p: nat)
    requires Injective(mac) && p >= 1 && walked != other
    ensures var rs := Walk(mac, walked, p) + [Forward(mac, other, p)];
            |rs| == p && Run(mac, {mac(1)}, rs) && Accepted(mac, rs[p - 1]) &&
            (forall k, i :: 0 <= k < p - 1 && 0 <= i < |rs[k].paginations| ==> rs[k].paginations[i].path != other) &&
            (PassesValidation(rs[p - 1]) <==> ValidPath(other) && ValidToken(mac(p)) && p < 100)
  {
    var walk, last := Walk(mac, walked, p), Forward(mac, other, p);
    WalkRuns(mac, walked, p);
    WalkStaysOnPath(mac, walked, p);
    ForwardIsAccepted(mac, other, p);
    ForwardPassesExactly(mac, other, p);
    ForwardIsUnforged(mac, After(mac, {mac(1)}, walk), other, p);
    RunAppend(mac, {mac(1)}, walk, last);
  }

  lemma WalkStaysOnPath(mac: Mac, path: Option<string>, p: nat)
    requires p >= 1
    ensures |Walk(mac, path, p)| == p - 1
    ensures forall k, i :: 0 <= k < p - 1 && 0 <= i < |Walk(mac, path, p)[k].paginations| ==>
              Walk(mac, path, p)[k].paginations[i].path == path
  {
    WalkIsForward(mac, path, p);
  }

  lemma ForwardIsUnforged(mac: Mac, issued: set<string>, path: Option<string>, from: int)
    requires Injective(mac) && Issued(mac, issued, from)
    ensures Unforged(mac, issued, Forward(mac, path, from))
  {
  }

  lemma RunAppend(mac: Mac, issued: set<string>, rs: seq<Request>, r: Request)
    requires Run(mac, issued, rs) && Unforged(mac, After(mac, issued, rs), r)
    ensures Run(mac, issued, rs + [r])
  {
    assert (rs + [r])[..|rs|] == rs;
  }
}
