/**
 * `addTrailingSlash`: `url.replace(/\/?$/, '/')`. Without the `m` flag `$`
 * matches only at the end of the input, so the first match is either the
 * final '/' or the empty string at the end, and that match becomes "/".
 */
module UrlUtils {

  /** The first match of `\/?$` at or after position i, as a half-open range. */
  function SlashMatch(url: string, i: nat): (m: (nat, nat))
    requires i <= |url|
    ensures url != [] && url[|url| - 1] == '/' && i < |url| ==> m == (|url| - 1, |url|)
    ensures (url == [] || url[|url| - 1] != '/' || i == |url|) ==> m == (|url|, |url|)
    decreases |url| - i
  {
    if i < |url| && url[i] == '/' && i + 1 == |url| then (i, i + 1)
    else if i == |url| then (i, i)
    else SlashMatch(url, i + 1)
  }

  /** `addTrailingSlash(url)`: the url with one added '/' unless it already ends in one. */
  function AddTrailingSlash(url: string): (r: string)
    ensures r != [] && r[|r| - 1] == '/'
    ensures url != [] && url[|url| - 1] == '/' ==> r == url
    ensures (url == [] || url[|url| - 1] != '/') ==> r == url + "/"
  {
    var m := SlashMatch(url, 0);
    url[..m.0] + "/" + url[m.1..]
  }

  /** Adding the slash twice adds it once. */
  lemma AddTrailingSlashIdempotent(url: string)
    ensures AddTrailingSlash(AddTrailingSlash(url)) == AddTrailingSlash(url)
  {
  }

  /** Only a '/' is ever added: the url is a prefix of the result, which is at most one longer. */
  lemma AddTrailingSlashExtends(url: string)
    ensures var r := AddTrailingSlash(url); url <= r && |r| <= |url| + 1
  {
  }

  /** The cases of the test suite: '' and '/' both give '/'. */
  lemma AddTrailingSlashExamples(host: string)
    requires host == "http://example.com"
    ensures AddTrailingSlash("") == "/"
    ensures AddTrailingSlash("/") == "/"
    ensures AddTrailingSlash(host) == host + "/"
    ensures AddTrailingSlash(host + "/") == host + "/"
  {
  }
}
