/** The download protocol of `_download` and `download`
    (utilities/fs_utility.js): redirects are followed, the body goes to a
    temporary sibling, and only a complete 200 is promoted to the final
    path. The network is a finite sequence of exchanges: the i-th request
    gets the i-th exchange. */
module Fetch {
  import opened Paths
  import opened Files
  import opened Console

  /** The answer to one `https.get`: a response with its status, status
      message, `Location` header, body and whether the body arrived in full;
      or a transport error on the request. */
  datatype Exchange =
    | Response(status: int, statusMessage: string, location: string, body: Blob, complete: bool)
    | TransportError(message: string)

  predicate IsRedirect(x: Exchange)
  {
    x.Response? && (x.status == 301 || x.status == 302)
  }

  /** Where a chain of requests ends: a non-redirect response to `url`, a
      transport error, or no answer within the modelled exchanges. */
  datatype Final =
    | Answered(url: string, status: int, statusMessage: string, body: Blob, complete: bool)
    | Failed(message: string)
    | Unanswered

  /** `_download`: a 301 or 302 re-requests its `Location`; anything else
      ends the chain. */
  function Follow(url: string, xs: seq<Exchange>): (f: Final)
    ensures f.Answered? ==> f.status != 301 && f.status != 302
    decreases |xs|
  {
    if xs == [] then Unanswered
    else match xs[0]
      case TransportError(m) => Failed(m)
      case Response(status, message, location, body, complete) =>
        if status == 301 || status == 302 then Follow(location, xs[1..])
        else Answered(url, status, message, body, complete)
  }

  /** The index of the first exchange that is not a redirect (|xs| when
      every exchange redirects). */
  function FirstNonRedirect(xs: seq<Exchange>): (k: nat)
    ensures k <= |xs|
    ensures forall j :: 0 <= j < k ==> IsRedirect(xs[j])
    ensures k < |xs| ==> !IsRedirect(xs[k])
    decreases |xs|
  {
    if xs == [] || !IsRedirect(xs[0]) then 0 else 1 + FirstNonRedirect(xs[1..])
  }

  /** The chain ends at the first exchange that is not a redirect, and that
      exchange answers the URL the previous redirect named (the first URL
      when there was none); when every exchange redirects, nothing
      answers. */
  lemma {:induction false} FollowEndsAtFirstNonRedirect(url: string, xs: seq<Exchange>)
    ensures var k := FirstNonRedirect(xs);
      Follow(url, xs) == if k == |xs| then Unanswered
                         else EndOf(if k == 0 then url else xs[k - 1].location, xs[k])
    decreases |xs|
  {
    if xs != [] && IsRedirect(xs[0]) {
      var rest := xs[1..];
      FollowEndsAtFirstNonRedirect(xs[0].location, rest);
      var k' := FirstNonRedirect(rest);
      if 0 < k' { assert rest[k' - 1] == xs[k']; }
      if k' < |rest| { assert rest[k'] == xs[k' + 1]; }
    }
  }

  /** The request loop of `_download`: follows 301 and 302 responses,
      logging each, and stops at the first exchange that is not a redirect
      (`k`, or |xs| when every exchange redirects), which answers `target`.
      The chain it walks is the one `Follow` describes. */
  method FollowRedirects(url: string, xs: seq<Exchange>) returns (k: nat, target: string, lines: seq<Event>)
    ensures k == FirstNonRedirect(xs)
    ensures target == if k == 0 then url else xs[k - 1].location
    ensures Follow(url, xs) == if k == |xs| then Unanswered else EndOf(target, xs[k])
    ensures lines == RedirectLines(xs[..k])
  {
    k, target, lines := 0, url, [];
    while k < |xs| && IsRedirect(xs[k])
      invariant 0 <= k <= |xs|
      invariant forall j :: 0 <= j < k ==> IsRedirect(xs[j])
      invariant target == if k == 0 then url else xs[k - 1].location
      invariant Follow(target, xs[k..]) == Follow(url, xs)
      invariant |lines| == k
      invariant forall j :: 0 <= j < k ==> lines[j] == Redirecting(xs[j].status, xs[j].statusMessage, xs[j].location)
    {
      var x := xs[k];
      lines := lines + [Redirecting(x.status, x.statusMessage, x.location)];
      assert xs[k..][1..] == xs[k + 1..];
      target := x.location;
      k := k + 1;
    }
    if k < |xs| {
      assert xs[k..][0] == xs[k];
    }
    assert lines == RedirectLines(xs[..k]);
  }

  /** The "Redirecting" lines printed for the redirects `xs`, in order. */
  function RedirectLines(xs: seq<Exchange>): seq<Event>
    requires forall j :: 0 <= j < |xs| ==> IsRedirect(xs[j])
  {
    seq(|xs|, j requires 0 <= j < |xs| && IsRedirect(xs[j]) => Redirecting(xs[j].status, xs[j].statusMessage, xs[j].location))
  }

  /** The end of a chain whose last exchange `x` is not a redirect. */
  function EndOf(url: string, x: Exchange): Final
  {
    match x
    case TransportError(m) => Failed(m)
    case Response(status, message, _, body, complete) => Answered(url, status, message, body, complete)
  }

  /** A complete 200: the only outcome that calls the callback. */
  predicate Succeeded(f: Final)
  {
    f.Answered? && f.status == 200 && f.complete
  }

  /** A final status other than 200: the error path of `download`. */
  predicate Rejected(f: Final)
  {
    f.Answered? && f.status != 200
  }

  /** The files after `download(url, saving)` ends with `f`. The temporary
      file is created empty when the download starts; a rejection deletes
      it; a complete 200 fills it, copies it to `saving` and deletes it; an
      interrupted body stays in it; a transport error or a chain that never
      ends leaves it empty. */
  function AfterDownload(files: FileMap, saving: string, f: Final): FileMap
  {
    var tmp := TempPath(saving);
    match f
    case Answered(_, status, _, body, complete) =>
      if status != 200 then files - {tmp}
      else if complete then (files - {tmp})[saving := body]
      else files[tmp := Incomplete]
    case _ => files[tmp := Text("")]
  }

  /** Creating the temporary file empty at the start does not change the
      outcome, because every outcome rewrites or removes it. */
  lemma AfterDownloadIgnoresEmptyTemp(files: FileMap, saving: string, f: Final)
    ensures AfterDownload(files[TempPath(saving) := Text("")], saving, f) == AfterDownload(files, saving, f)
  {
  }

  /** Temp-then-promote: the final path changes only on a complete 200, and
      then it holds the complete body and the temporary file is gone;
      otherwise the final path keeps its previous state, present or not. */
  lemma PromotionIsAtomic(files: FileMap, saving: string, f: Final)
    ensures var r := AfterDownload(files, saving, f);
      if Succeeded(f) then saving in r && r[saving] == f.body && TempPath(saving) !in r
      else (saving in r <==> saving in files) && (saving in files ==> r[saving] == files[saving])
  {
    TempPathDistinct(saving);
  }

  /** Whatever happens, only the final path and its temporary sibling can
      change. */
  lemma DownloadFrame(files: FileMap, saving: string, f: Final, p: string)
    requires p != saving && p != TempPath(saving)
    ensures var r := AfterDownload(files, saving, f);
      (p in r <==> p in files) && (p in files ==> r[p] == files[p])
  {
  }

  /** The temporary file is removed on every answered outcome except an
      interrupted 200, and what is left behind is never a complete body. */
  lemma TempFileFate(files: FileMap, saving: string, f: Final)
    ensures var r := AfterDownload(files, saving, f);
      var tmp := TempPath(saving);
      (tmp !in r <==> Succeeded(f) || Rejected(f))
      && (tmp in r ==> r[tmp] == Incomplete || r[tmp] == Text(""))
  {
    TempPathDistinct(saving);
  }
}
