/** The address of one page of a contest's submission list
    (`construct_url`), and a reader that takes such an address apart again. */
module Urls {

  import opened Optional
  import opened Text

  const BaseUrl: string := "https://contest.ucup.ac/contest/"

  /** What follows the contest id, up to the page number. */
  const PageQuery: string := "/submissions?v=1&page="

  /** The address of page `page` of contest `contestId`: the base URL, the
      contest id and the query, followed by the page number written in
      decimal. */
  function ConstructUrl(contestId: string, page: int): (url: string)
  {
    BaseUrl + contestId + PageQuery + IntToString(page)
  }

  lemma ConstructUrlShape(contestId: string, page: int)
    ensures var url := ConstructUrl(contestId, page);
      var head := BaseUrl + contestId + PageQuery;
      && |head| < |url|
      && url[..|head|] == head
      && ParseInt(url[|head|..]) == Some(page)
  {
    var head := BaseUrl + contestId + PageQuery;
    var url := ConstructUrl(contestId, page);
    assert url[..|head|] == head && url[|head|..] == IntToString(page);
    IntToStringRoundTrip(page);
  }

  /** The position of the last `ch` in `s`, if any. */
  function LastIndexOf(s: string, ch: char): (r: Option<nat>)
    ensures r.Some? ==> r.value < |s| && s[r.value] == ch
    ensures r.Some? ==> forall k :: r.value < k < |s| ==> s[k] != ch
    ensures r.None? ==> forall k :: 0 <= k < |s| ==> s[k] != ch
  {
    if s == [] then None
    else if s[|s| - 1] == ch then Some(|s| - 1)
    else LastIndexOf(s[..|s| - 1], ch)
  }

  /** Reads a contest id and a page number back out of a page address: the
      number is what follows the last '=', the id what lies between the base
      and the query. */
  function ParsePageUrl(url: string): (r: Option<(string, int)>)
  {
    if |url| < |BaseUrl| || url[..|BaseUrl|] != BaseUrl then None
    else
      var rest := url[|BaseUrl|..];
      match LastIndexOf(rest, '=')
      case None => None
      case Some(eq) =>
        var idEnd := eq + 1 - |PageQuery|;
        if idEnd < 0 || rest[idEnd..eq + 1] != PageQuery then None
        else
          match ParseInt(rest[eq + 1..])
          case None => None
          case Some(page) => Some((rest[..idEnd], page))
  }

  /** Text without `ch` after a `ch` leaves that `ch` the last one. */
  lemma {:induction false} LastIndexOfBefore(s: string, t: string, ch: char)
    requires s != [] && s[|s| - 1] == ch
    requires forall k :: 0 <= k < |t| ==> t[k] != ch
    ensures LastIndexOf(s + t, ch) == Some(|s| - 1)
  {
    if t == [] {
      assert s + t == s;
    } else {
      var t' := t[..|t| - 1];
      assert (s + t)[..|s + t| - 1] == s + t';
      LastIndexOfBefore(s, t', ch);
    }
  }

  /** Every address built for a contest id and a page reads back as that id
      and that page. */
  lemma ConstructUrlRoundTrip(contestId: string, page: int)
    ensures ParsePageUrl(ConstructUrl(contestId, page)) == Some((contestId, page))
  {
    var url := ConstructUrl(contestId, page);
    var digits := IntToString(page);
    var rest := contestId + PageQuery + digits;
    assert url == BaseUrl + rest;
    assert url[..|BaseUrl|] == BaseUrl && url[|BaseUrl|..] == rest;
    var eq := |contestId| + |PageQuery| - 1;
    assert rest == (contestId + PageQuery) + digits;
    LastIndexOfBefore(contestId + PageQuery, digits, '=');
    assert rest[|contestId|..eq + 1] == PageQuery;
    assert rest[eq + 1..] == digits;
    assert rest[..|contestId|] == contestId;
    IntToStringRoundTrip(page);
  }

  /** Different contests or different pages never share an address. */
  lemma ConstructUrlInjective(c1: string, p1: int, c2: string, p2: int)
    requires ConstructUrl(c1, p1) == ConstructUrl(c2, p2)
    ensures c1 == c2 && p1 == p2
  {
    ConstructUrlRoundTrip(c1, p1);
    ConstructUrlRoundTrip(c2, p2);
  }
}
