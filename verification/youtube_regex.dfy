/** Hand-written recognisers for the plugin's YouTube URL regular
    expressions, which all have the shape

        ^(https?://)?(www\.)?(HOST_1|...|HOST_n)TAIL$

    where TAIL is either `[\w-]+` (one identifier) or `[\w-]+(&[\w-]+)*`
    (an identifier followed by `&`-separated identifier groups). The
    recogniser strips each optional part deterministically; `RecogniseIff`
    proves that this agrees with the regular expression's meaning, stated
    with the choice of scheme, `www.` and host left existential. */
module YouTubeRegex {
  import opened JsValues
  import opened Strings

  const Schemes: seq<string> := ["https://", "http://", ""]
  const WwwPrefixes: seq<string> := ["www.", ""]

  /** `[\w-]`: ASCII letters, digits, `_` and `-`. */
  predicate IsWordChar(c: char) {
    ('A' <= c <= 'Z') || ('a' <= c <= 'z') || ('0' <= c <= '9') || c == '_' || c == '-'
  }

  /** `[\w-]+` */
  predicate IsWordRun(s: string) {
    |s| > 0 && forall i :: 0 <= i < |s| ==> IsWordChar(s[i])
  }

  /** `[\w-]+(&[\w-]+)*`, read off the regular expression: either one run,
      or a shorter match followed by `&` and one more run. */
  ghost predicate IdGroups(s: string)
    decreases |s|
  {
    IsWordRun(s)
    || exists k :: 0 < k < |s| && s[k] == '&' && IdGroups(s[..k]) && IsWordRun(s[k + 1..])
  }

  /** The same language checked character by character: word characters and
      `&` only, no `&` at either end, and never two `&` in a row. */
  predicate ValidIdTail(s: string) {
    && |s| > 0
    && s[0] != '&'
    && s[|s| - 1] != '&'
    && (forall i :: 0 <= i < |s| ==> IsWordChar(s[i]) || s[i] == '&')
    && (forall i :: 0 <= i < |s| - 1 ==> !(s[i] == '&' && s[i + 1] == '&'))
  }

  /** Appending `&` and one more run keeps a tail valid. */
  lemma ValidIdTailExtend(a: string, b: string)
    requires ValidIdTail(a) && IsWordRun(b)
    ensures ValidIdTail(a + "&" + b)
  {
    var s := a + "&" + b;
    var k := |a|;
    forall i | 0 <= i < |s|
      ensures IsWordChar(s[i]) || s[i] == '&'
    {
      if i < k { assert s[i] == a[i]; }
      else if i > k { assert s[i] == b[i - k - 1]; }
    }
    forall i | 0 <= i < |s| - 1
      ensures !(s[i] == '&' && s[i + 1] == '&')
    {
      if i + 1 < k { assert s[i] == a[i] && s[i + 1] == a[i + 1]; }
      else if i + 1 == k { assert s[i] == a[k - 1]; }
      else if i == k { assert s[i + 1] == b[0]; }
      else { assert s[i + 1] == b[i - k]; }
    }
    assert s[|s| - 1] == b[|b| - 1];
    assert s[0] == a[0];
  }

  lemma {:induction false} IdGroupsIsValidIdTail(s: string)
    requires IdGroups(s)
    ensures ValidIdTail(s)
    decreases |s|
  {
    if !IsWordRun(s) {
      var k :| 0 < k < |s| && s[k] == '&' && IdGroups(s[..k]) && IsWordRun(s[k + 1..]);
      IdGroupsIsValidIdTail(s[..k]);
      assert s == s[..k] + "&" + s[k + 1..];
      ValidIdTailExtend(s[..k], s[k + 1..]);
    }
  }

  lemma {:induction false} ValidIdTailIsIdGroups(s: string)
    requires ValidIdTail(s)
    ensures IdGroups(s)
    decreases |s|
  {
    if !IsWordRun(s) {
      // the last `&` splits off the final run
      var k := LastIndexOf(s, "&");
      if k == -1 {
        forall i | 0 <= i < |s| ensures IsWordChar(s[i]) {
          assert !OccursAt(s, "&", i);
          assert s[i..i + 1] == [s[i]];
        }
        assert false;
      } else {
        assert s[k..k + 1] == "&";
        assert s[k] == '&';
        var a, b := s[..k], s[k + 1..];
        forall i | 0 <= i < |b| ensures IsWordChar(b[i]) {
          assert !OccursAt(s, "&", k + 1 + i);
          assert s[k + 1 + i..k + 2 + i] == [b[i]];
        }
        assert s[k - 1] != '&';
        assert ValidIdTail(a);
        ValidIdTailIsIdGroups(a);
      }
    }
  }

  lemma IdGroupsIff(s: string)
    ensures IdGroups(s) <==> ValidIdTail(s)
  {
    if IdGroups(s) { IdGroupsIsValidIdTail(s); }
    if ValidIdTail(s) { ValidIdTailIsIdGroups(s); }
  }

  // ---------------------------------------------------------------------
  // the whole URL

  datatype TailKind = SingleId | IdGroupList

  ghost predicate TailMatches(kind: TailKind, s: string) {
    match kind
    case SingleId => IsWordRun(s)
    case IdGroupList => IdGroups(s)
  }

  /** What the regular expression accepts: some scheme choice, some `www.`
      choice and some host, in that order, followed by a matching tail. */
  ghost predicate RegexMatches(url: string, hosts: seq<string>, kind: TailKind) {
    exists i, j, k :: 0 <= i < |Schemes| && 0 <= j < |WwwPrefixes| && 0 <= k < |hosts|
      && StartsWith(url, Schemes[i] + WwwPrefixes[j] + hosts[k])
      && TailMatches(kind, url[|Schemes[i] + WwwPrefixes[j] + hosts[k]|..])
  }

  /** The host alternatives of one regular expression: each begins with `y`
      (so none can be mistaken for a scheme or `www.`), and none is a prefix
      of another (so at most one can match). */
  predicate WellFormedHosts(hosts: seq<string>) {
    && (forall k :: 0 <= k < |hosts| ==> |hosts[k]| > 0 && hosts[k][0] == 'y')
    && (forall a, b :: 0 <= a < |hosts| && 0 <= b < |hosts| && a != b ==> !StartsWith(hosts[b], hosts[a]))
  }

  function StripScheme(url: string): string {
    if StartsWith(url, "https://") then url[8..]
    else if StartsWith(url, "http://") then url[7..]
    else url
  }

  function StripWww(s: string): string {
    if StartsWith(s, "www.") then s[4..] else s
  }

  /** The text after the first host alternative that `s` starts with. */
  function StripHost(s: string, hosts: seq<string>): (r: Option<string>)
    ensures r.None? ==> forall k :: 0 <= k < |hosts| ==> !StartsWith(s, hosts[k])
    ensures r.Some? ==> exists k :: 0 <= k < |hosts| && StartsWith(s, hosts[k]) && r.value == s[|hosts[k]|..]
    decreases |hosts|
  {
    if |hosts| == 0 then None
    else if StartsWith(s, hosts[0]) then Some(s[|hosts[0]|..])
    else
      var r := StripHost(s, hosts[1..]);
      assert forall k :: 1 <= k < |hosts| ==> hosts[k] == hosts[1..][k - 1];
      r
  }

  function TailAccepts(kind: TailKind, s: string): bool {
    match kind
    case SingleId => IsWordRun(s)
    case IdGroupList => ValidIdTail(s)
  }

  /** The recogniser: strip the optional scheme, the optional `www.` and one
      host, then check the tail. */
  function Recognise(url: string, hosts: seq<string>, kind: TailKind): bool {
    match StripHost(StripWww(StripScheme(url)), hosts)
    case None => false
    case Some(rest) => TailAccepts(kind, rest)
  }

  lemma StartsWithConcat(s: string, a: string, b: string)
    requires StartsWith(s, a + b)
    ensures StartsWith(s, a) && StartsWith(s[|a|..], b) && s[|a + b|..] == s[|a|..][|b|..]
  {
    assert s[..|a|] == (a + b)[..|a|] == a;
    assert s[|a|..][..|b|] == s[..|a + b|][|a|..] == b;
  }

  lemma ConcatStartsWith(s: string, a: string, b: string)
    requires StartsWith(s, a) && StartsWith(s[|a|..], b)
    ensures StartsWith(s, a + b) && s[|a + b|..] == s[|a|..][|b|..]
  {
    assert s[..|a + b|] == s[..|a|] + s[|a|..][..|b|];
  }

  lemma TailIff(kind: TailKind, s: string)
    ensures TailAccepts(kind, s) <==> TailMatches(kind, s)
  {
    if kind.IdGroupList? { IdGroupsIff(s); }
  }

  /** The regex's scheme choice is forced: what follows it starts with `w` or `y`. */
  lemma SchemeChoiceForced(url: string, i: int, t: string)
    requires 0 <= i < |Schemes| && StartsWith(url, Schemes[i] + t)
    requires |t| > 0 && (t[0] == 'w' || t[0] == 'y')
    ensures StripScheme(url) == url[|Schemes[i]|..]
  {
    StartsWithConcat(url, Schemes[i], t);
    if i == 1 { assert url[4] == ':'; }
    if i == 2 { assert url[0] == t[0]; }
  }

  /** The regex's `www.` choice is forced: what follows it starts with `y`. */
  lemma WwwChoiceForced(s: string, j: int, t: string)
    requires 0 <= j < |WwwPrefixes| && StartsWith(s, WwwPrefixes[j] + t)
    requires |t| > 0 && t[0] == 'y'
    ensures StripWww(s) == s[|WwwPrefixes[j]|..]
  {
    StartsWithConcat(s, WwwPrefixes[j], t);
    if j == 1 { assert s[0] == t[0]; }
  }

  /** With well-formed hosts, the host `StripHost` finds is the only one. */
  lemma HostChoiceForced(s: string, hosts: seq<string>, k: int)
    requires WellFormedHosts(hosts) && 0 <= k < |hosts| && StartsWith(s, hosts[k])
    ensures StripHost(s, hosts) == Some(s[|hosts[k]|..])
  {
    var r := StripHost(s, hosts);
    var k' :| 0 <= k' < |hosts| && StartsWith(s, hosts[k']) && r.value == s[|hosts[k']|..];
    if k != k' {
      if |hosts[k]| <= |hosts[k']| { PrefixesNest(s, hosts[k], hosts[k']); }
      else { PrefixesNest(s, hosts[k'], hosts[k]); }
    }
  }

  lemma RecogniseSound(url: string, hosts: seq<string>, kind: TailKind)
    requires Recognise(url, hosts, kind)
    ensures RegexMatches(url, hosts, kind)
  {
    var s1 := StripScheme(url);
    var i := if StartsWith(url, "https://") then 0 else if StartsWith(url, "http://") then 1 else 2;
    assert s1 == url[|Schemes[i]|..] && StartsWith(url, Schemes[i]);
    var s2 := StripWww(s1);
    var j := if StartsWith(s1, "www.") then 0 else 1;
    assert s2 == s1[|WwwPrefixes[j]|..] && StartsWith(s1, WwwPrefixes[j]);
    var k :| 0 <= k < |hosts| && StartsWith(s2, hosts[k]) && StripHost(s2, hosts).value == s2[|hosts[k]|..];
    ConcatStartsWith(url, Schemes[i], WwwPrefixes[j]);
    ConcatStartsWith(url, Schemes[i] + WwwPrefixes[j], hosts[k]);
    TailIff(kind, s2[|hosts[k]|..]);
  }

  lemma RecogniseComplete(url: string, hosts: seq<string>, kind: TailKind)
    requires WellFormedHosts(hosts) && RegexMatches(url, hosts, kind)
    ensures Recognise(url, hosts, kind)
  {
    var i, j, k :| 0 <= i < |Schemes| && 0 <= j < |WwwPrefixes| && 0 <= k < |hosts|
      && StartsWith(url, Schemes[i] + WwwPrefixes[j] + hosts[k])
      && TailMatches(kind, url[|Schemes[i] + WwwPrefixes[j] + hosts[k]|..]);
    var tail := url[|Schemes[i] + WwwPrefixes[j] + hosts[k]|..];
    var s2 := StrippedPrefixes(url, i, j, hosts[k]);
    HostChoiceForced(s2, hosts, k);
    TailIff(kind, tail);
  }

  /** Stripping the scheme and `www.` leaves the host and the tail. */
  lemma StrippedPrefixes(url: string, i: int, j: int, h: string) returns (s2: string)
    requires 0 <= i < |Schemes| && 0 <= j < |WwwPrefixes|
    requires StartsWith(url, Schemes[i] + WwwPrefixes[j] + h) && |h| > 0 && h[0] == 'y'
    ensures s2 == StripWww(StripScheme(url))
    ensures StartsWith(s2, h) && s2[|h|..] == url[|Schemes[i] + WwwPrefixes[j] + h|..]
  {
    var sc, w := Schemes[i], WwwPrefixes[j];
    assert sc + w + h == sc + (w + h);
    assert (w + h)[0] == (if j == 0 then 'w' else h[0]);
    SchemeChoiceForced(url, i, w + h);
    StartsWithConcat(url, sc, w + h);
    var s1 := url[|sc|..];
    WwwChoiceForced(s1, j, h);
    StartsWithConcat(s1, w, h);
    s2 := s1[|w|..];
  }

  /** The recogniser accepts exactly the strings the regular expression
      matches. */
  lemma RecogniseIff(url: string, hosts: seq<string>, kind: TailKind)
    requires WellFormedHosts(hosts)
    ensures Recognise(url, hosts, kind) <==> RegexMatches(url, hosts, kind)
  {
    if Recognise(url, hosts, kind) { RecogniseSound(url, hosts, kind); }
    if RegexMatches(url, hosts, kind) { RecogniseComplete(url, hosts, kind); }
  }
}
