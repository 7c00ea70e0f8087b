/** Choosing a pronunciation from a Forvo response (forvo_utils.py). The HTTP request and
    the XML parse are not modelled: a response is the sequence of its `<item>` elements,
    each given by the texts of its `pathmp3` children and the values of its `rate` children. */
module Forvo {
  import opened Wrappers

  const UrlPrefix: string := "https://apifree.forvo.com/key/"
  const UrlAfterKey: string := "/format/xml/action/word-pronunciations/word/"
  const UrlAfterWord: string := "/language/"
  const DefaultLanguage: string := "he"

  /** `_get_forvo_url`: the request for every pronunciation of `word`. */
  function ForvoUrl(word: string, apiKey: string, language: string := DefaultLanguage): (url: string)
    ensures |url| == |UrlPrefix| + |apiKey| + |UrlAfterKey| + |word| + |UrlAfterWord| + |language|
    ensures url[..|UrlPrefix|] == UrlPrefix
    ensures url[|UrlPrefix|..|UrlPrefix| + |apiKey|] == apiKey
    ensures url[|UrlPrefix| + |apiKey|..|UrlPrefix| + |apiKey| + |UrlAfterKey|] == UrlAfterKey
    ensures var start := |UrlPrefix| + |apiKey| + |UrlAfterKey|; url[start..start + |word|] == word
    ensures var start := |UrlPrefix| + |apiKey| + |UrlAfterKey| + |word|;
      url[start..start + |UrlAfterWord|] == UrlAfterWord
    ensures url[|url| - |language|..] == language
  {
    UrlPrefix + apiKey + UrlAfterKey + word + UrlAfterWord + language
  }

  /** With the key and language fixed, distinct words give distinct requests. */
  lemma ForvoUrlInjective(w1: string, w2: string, apiKey: string, language: string)
    ensures ForvoUrl(w1, apiKey, language) == ForvoUrl(w2, apiKey, language) <==> w1 == w2
  {
    if ForvoUrl(w1, apiKey, language) == ForvoUrl(w2, apiKey, language) {
      var start := |UrlPrefix| + |apiKey| + |UrlAfterKey|;
      var u1 := ForvoUrl(w1, apiKey, language);
      var u2 := ForvoUrl(w2, apiKey, language);
      assert u1[start..start + |w1|] == w1;
      assert u2[start..start + |w2|] == w2;
    }
  }

  /** The source's request for a Hebrew word uses language code "he" unless told otherwise. */
  lemma ForvoUrlDefault(word: string, apiKey: string)
    ensures ForvoUrl(word, apiKey) == ForvoUrl(word, apiKey, "he")
    ensures ForvoUrl(word, apiKey)[|ForvoUrl(word, apiKey)| - 12..] == "/language/he"
  {
  }

  /** One `<item>` of the response. */
  datatype Item = Item(pathmp3: seq<string>, rate: seq<int>)

  /** The ValueErrors of `_get_and_check_unique`, and the IndexError of an empty response. */
  datatype ForvoError = TooManyChildren | MissingChild | NoItems

  /** `_get_and_check_unique`: the single child of a given name, or an error. */
  function GetAndCheckUnique<T>(subItems: seq<T>): (r: Result<T, ForvoError>)
    ensures r.Ok? <==> |subItems| == 1
    ensures r.Ok? ==> r.value == subItems[0]
    ensures |subItems| > 1 ==> r == Err(TooManyChildren)
    ensures subItems == [] ==> r == Err(MissingChild)
  {
    if |subItems| > 1 then Err(TooManyChildren)
    else if subItems == [] then Err(MissingChild)
    else Ok(subItems[0])
  }

  /** The `(rate, pathmp3)` pair of one item; `pathmp3` is checked before `rate`. */
  function RatedPath(item: Item): (r: Result<(int, string), ForvoError>)
    ensures r.Ok? <==> |item.pathmp3| == 1 && |item.rate| == 1
    ensures r.Ok? ==> r.value == (item.rate[0], item.pathmp3[0])
    ensures |item.pathmp3| != 1 ==> r == Err(GetAndCheckUnique(item.pathmp3).error)
  {
    match GetAndCheckUnique(item.pathmp3)
    case Err(e) => Err(e)
    case Ok(path) =>
      match GetAndCheckUnique(item.rate)
      case Err(e) => Err(e)
      case Ok(rate) => Ok((rate, path))
  }

  /** Python's ordering of strings: lexicographic by code point, a proper prefix first. */
  predicate StrLe(a: string, b: string)
    ensures |a| <= |b| && b[..|a|] == a ==> StrLe(a, b)
  {
    a == [] || (b != [] && (a[0] < b[0] || (a[0] == b[0] && StrLe(a[1..], b[1..]))))
  }

  /** Python's ordering of `(rate, path)` tuples. */
  predicate PairLe(p: (int, string), q: (int, string))
    ensures p.0 < q.0 ==> PairLe(p, q)
    ensures PairLe(p, q) ==> p.0 <= q.0
    ensures p.0 == q.0 ==> (PairLe(p, q) <==> StrLe(p.1, q.1))
  {
    p.0 < q.0 || (p.0 == q.0 && StrLe(p.1, q.1))
  }

  lemma {:induction false} StrLeTotal(a: string, b: string)
    ensures StrLe(a, b) || StrLe(b, a)
  {
    if a != [] && b != [] && a[0] == b[0] {
      StrLeTotal(a[1..], b[1..]);
    }
  }

  lemma {:induction false} StrLeTransitive(a: string, b: string, c: string)
    requires StrLe(a, b) && StrLe(b, c)
    ensures StrLe(a, c)
  {
    if a != [] && b != [] && c != [] && a[0] == b[0] == c[0] {
      StrLeTransitive(a[1..], b[1..], c[1..]);
    }
  }

  lemma {:induction false} StrLeAntisymmetric(a: string, b: string)
    requires StrLe(a, b) && StrLe(b, a)
    ensures a == b
  {
    if a != [] && b != [] {
      StrLeAntisymmetric(a[1..], b[1..]);
      assert a == [a[0]] + a[1..] && b == [b[0]] + b[1..];
    }
  }

  /** The first element of `ps` sorted in descending order: a greatest pair. */
  function Greatest(ps: seq<(int, string)>): (r: (int, string))
    requires |ps| > 0
    ensures r in ps
    ensures forall q :: q in ps ==> PairLe(q, r)
  {
    if |ps| == 1 then
      StrLeTotal(ps[0].1, ps[0].1);
      ps[0]
    else
      var g := Greatest(ps[1..]);
      StrLeTotal(g.1, ps[0].1);
      if PairLe(g, ps[0]) then
        assert forall q :: q in ps[1..] ==> PairLe(q, ps[0]) by {
          forall q | q in ps[1..] ensures PairLe(q, ps[0]) {
            if q.0 == g.0 == ps[0].0 {
              StrLeTransitive(q.1, g.1, ps[0].1);
            }
          }
        }
        StrLeTotal(ps[0].1, ps[0].1);
        assert ps == [ps[0]] + ps[1..];
        ps[0]
      else
        assert ps == [ps[0]] + ps[1..];
        g
  }

  /** Two greatest pairs of the same list are equal, so the choice does not depend on how
      the sort orders equal elements. */
  lemma GreatestUnique(ps: seq<(int, string)>, a: (int, string), b: (int, string))
    requires a in ps && b in ps
    requires forall q :: q in ps ==> PairLe(q, a)
    requires forall q :: q in ps ==> PairLe(q, b)
    ensures a == b
  {
    assert PairLe(a, b) && PairLe(b, a);
    if a.0 == b.0 {
      StrLeAntisymmetric(a.1, b.1);
    }
  }

  /** `_extract_mp3link_from_xml`: checks every item, collects their `(rate, pathmp3)`
      pairs, and returns the path of the greatest pair: the highest rate, and among equal
      rates the greatest path. */
  method ExtractMp3Link(items: seq<Item>) returns (r: Result<string, ForvoError>)
    ensures r.Ok? <==> |items| > 0 && forall i :: 0 <= i < |items| ==> RatedPath(items[i]).Ok?
    ensures items == [] ==> r == Err(NoItems)
    ensures forall k :: 0 <= k < |items| && RatedPath(items[k]).Err? &&
                        (forall j :: 0 <= j < k ==> RatedPath(items[j]).Ok?) ==>
                        r == Err(RatedPath(items[k]).error)
    ensures r.Ok? ==> exists k :: 0 <= k < |items| && r.value == items[k].pathmp3[0] &&
                        forall j :: 0 <= j < |items| ==> PairLe(RatedPath(items[j]).value, RatedPath(items[k]).value)
  {
    var pathsAndRatings: seq<(int, string)> := [];
    for i := 0 to |items|
      invariant |pathsAndRatings| == i
      invariant forall j :: 0 <= j < i ==> RatedPath(items[j]).Ok? && pathsAndRatings[j] == RatedPath(items[j]).value
    {
      var pathmp3 := GetAndCheckUnique(items[i].pathmp3);
      if pathmp3.Err? {
        return Err(pathmp3.error);
      }
      var rate := GetAndCheckUnique(items[i].rate);
      if rate.Err? {
        return Err(rate.error);
      }
      pathsAndRatings := pathsAndRatings + [(rate.value, pathmp3.value)];
    }
    if pathsAndRatings == [] {
      return Err(NoItems);
    }
    var best := Greatest(pathsAndRatings);
    var k :| 0 <= k < |pathsAndRatings| && pathsAndRatings[k] == best;
    assert forall j :: 0 <= j < |items| ==> PairLe(pathsAndRatings[j], best) by {
      forall j | 0 <= j < |items| ensures PairLe(pathsAndRatings[j], best) {
        assert pathsAndRatings[j] in pathsAndRatings;
      }
    }
    r := Ok(best.1);
  }
}
