/** The string operations the classifier relies on: Python's substring test
    `needle in hay`, `str.split('|')`, and the composite key `f"{id}|{domain}"`. */
module Text {
  import opened Results

  /** The reserved separator of composite index keys. */
  const SEP: char := '|'

  /** `needle` occurs in `hay` starting at position `i`. */
  ghost predicate OccursAt(hay: string, needle: string, i: nat)
  {
    i + |needle| <= |hay| && hay[i..i + |needle|] == needle
  }

  /** Python's `needle in hay` for two strings; the empty needle occurs everywhere. */
  predicate Contains(hay: string, needle: string)
    decreases |hay|
  {
    needle <= hay || (|hay| > 0 && Contains(hay[1..], needle))
  }

  /** `Contains` is exactly "occurs at some position". */
  lemma {:induction false} ContainsIff(hay: string, needle: string)
    ensures Contains(hay, needle) <==> exists i: nat :: OccursAt(hay, needle, i)
    decreases |hay|
  {
    if needle <= hay {
      assert hay[0..|needle|] == needle;
      assert OccursAt(hay, needle, 0);
    } else if |hay| == 0 {
      forall i: nat ensures !OccursAt(hay, needle, i) {
      }
    } else {
      ContainsIff(hay[1..], needle);
      if Contains(hay[1..], needle) {
        var i: nat :| OccursAt(hay[1..], needle, i);
        OccursLater(hay, needle, i);
      } else {
        forall i: nat ensures !OccursAt(hay, needle, i) {
          if i == 0 {
            OccursFirst(hay, needle);
          } else {
            OccursEarlier(hay, needle, i);
          }
        }
      }
    }
  }

  /** An occurrence at the start is a prefix. */
  lemma OccursFirst(hay: string, needle: string)
    ensures OccursAt(hay, needle, 0) ==> needle <= hay
  {
  }

  /** An occurrence in the tail of `hay` is one position later in `hay`. */
  lemma OccursLater(hay: string, needle: string, i: nat)
    requires |hay| > 0 && OccursAt(hay[1..], needle, i)
    ensures OccursAt(hay, needle, i + 1)
  {
    assert hay[i + 1..i + 1 + |needle|] == hay[1..][i..i + |needle|];
  }

  /** An occurrence past the start of `hay` is one position earlier in its tail. */
  lemma OccursEarlier(hay: string, needle: string, i: nat)
    requires |hay| > 0 && i > 0
    ensures OccursAt(hay, needle, i) ==> OccursAt(hay[1..], needle, i - 1)
  {
    if OccursAt(hay, needle, i) {
      assert hay[1..][i - 1..i - 1 + |needle|] == hay[i..i + |needle|];
    }
  }

  /** Every string contains itself followed by anything. */
  lemma PrefixContained(x: string, y: string)
    ensures Contains(x + y, x)
  {
    assert x <= x + y by { assert (x + y)[..|x|] == x; }
  }

  /** Position of the first separator in `s`, or `|s|` when there is none. */
  function FirstSep(s: string): (i: nat)
    ensures i <= |s|
    ensures forall j :: 0 <= j < i ==> s[j] != SEP
    ensures i < |s| ==> s[i] == SEP
  {
    if |s| == 0 || s[0] == SEP then 0 else 1 + FirstSep(s[1..])
  }

  /** Python's `s.split('|')`: the maximal separator-free pieces between separators. */
  function Split(s: string): (parts: seq<string>)
    ensures |parts| >= 1
    ensures forall k :: 0 <= k < |parts| ==> SEP !in parts[k]
    ensures |parts| == 1 <==> SEP !in s
    decreases |s|
  {
    var i := FirstSep(s);
    if i == |s| then
      assert forall c :: c in s ==> c != SEP;
      [s]
    else
      assert SEP !in s[..i];
      [s[..i]] + Split(s[i + 1..])
  }

  /** `'|'.join(parts)`. */
  function Join(parts: seq<string>): string
    requires |parts| >= 1
  {
    if |parts| == 1 then parts[0] else parts[0] + [SEP] + Join(parts[1..])
  }

  /** Joining a piece in front of further pieces puts one separator between them. */
  lemma JoinCons(p: string, rest: seq<string>)
    requires |rest| >= 1
    ensures Join([p] + rest) == p + [SEP] + Join(rest)
  {
    assert ([p] + rest)[1..] == rest;
  }

  /** Joining the pieces of a split gives the original string back. */
  lemma {:induction false} JoinSplit(s: string)
    ensures Join(Split(s)) == s
    decreases |s|
  {
    var i := FirstSep(s);
    if i < |s| {
      SplitAtFirstSep(s, i);
      JoinCons(s[..i], Split(s[i + 1..]));
      JoinSplit(s[i + 1..]);
      AroundSep(s, i);
    }
  }

  /** A string with a separator splits into the piece before its first separator
      followed by the split of the rest. */
  lemma SplitAtFirstSep(s: string, i: nat)
    requires i == FirstSep(s) && i < |s|
    ensures Split(s) == [s[..i]] + Split(s[i + 1..])
  {
  }

  /** A string is the text before a separator position, the separator, and the text after it. */
  lemma AroundSep(s: string, i: nat)
    requires i < |s| && s[i] == SEP
    ensures s == s[..i] + [SEP] + s[i + 1..]
  {
    assert s == s[..i] + s[i..];
    assert s[i..] == [SEP] + s[i + 1..];
  }

  /** Splitting a join of separator-free pieces gives the pieces back. */
  lemma {:induction false} SplitJoin(parts: seq<string>)
    requires |parts| >= 1
    requires forall k :: 0 <= k < |parts| ==> SEP !in parts[k]
    ensures Split(Join(parts)) == parts
  {
    if |parts| > 1 {
      var p, rest := parts[0], parts[1..];
      var s := Join(parts);
      assert parts == [p] + rest;
      JoinCons(p, rest);
      assert s == p + [SEP] + Join(rest);
      assert FirstSep(s) == |p| by { FirstSepAfter(p, Join(rest)); }
      assert s[..|p|] == p;
      assert s[|p| + 1..] == Join(rest);
      SplitJoin(rest);
      assert Split(s) == [p] + Split(Join(rest));
    } else {
      assert Split(parts[0]) == [parts[0]];
    }
  }

  /** The first separator of `p + '|' + t` is the one after a separator-free `p`. */
  lemma FirstSepAfter(p: string, t: string)
    requires SEP !in p
    ensures FirstSep(p + [SEP] + t) == |p|
    decreases |p|
  {
    if |p| > 0 {
      assert (p + [SEP] + t)[1..] == p[1..] + [SEP] + t;
      assert p[0] in p;
      FirstSepAfter(p[1..], t);
    }
  }

  /** Python's `s.split('|')[n]`, raising `IndexError` when there are too few pieces. */
  function Field(s: string, n: nat): (r: Result<string>)
    ensures r.Failure? <==> n >= |Split(s)|
    ensures r.Failure? ==> r.error == IndexError
    ensures r.Success? ==> SEP !in r.value
  {
    var parts := Split(s);
    if n < |parts| then Success(parts[n]) else Failure(IndexError)
  }

  /** Python's `f"{v}"` for a string or `None`. */
  function Show(v: Option<string>): string
  {
    match v
    case Some(s) => s
    case None => "None"
  }

  /** The composite index key `f"{article_id}|{article_domain}"`. */
  function FormatKey(articleId: Option<string>, domain: Option<string>): (key: string)
    ensures SEP in key
    ensures Show(articleId) <= key
  {
    var k := Show(articleId) + [SEP] + Show(domain);
    assert k[|Show(articleId)|] == SEP;
    assert k[..|Show(articleId)|] == Show(articleId);
    k
  }

  /** A key built from separator-free parts splits back into its domain at field 1. */
  lemma KeyDomainField(articleId: Option<string>, domain: Option<string>)
    requires SEP !in Show(articleId) && SEP !in Show(domain)
    ensures Field(FormatKey(articleId, domain), 1) == Success(Show(domain))
  {
    SplitJoin([Show(articleId), Show(domain)]);
    assert Join([Show(articleId), Show(domain)]) == FormatKey(articleId, domain);
  }

  /** The key of a present article id contains that id. */
  lemma KeyContainsId(articleId: string, domain: Option<string>)
    ensures Contains(FormatKey(Some(articleId), domain), articleId)
  {
    var k := FormatKey(Some(articleId), domain);
    assert articleId <= k;
  }
}
