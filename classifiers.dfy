/**
 * The four categorical classifiers of the log normaliser: browser family,
 * operating system, device class and country bucket. Each of browser, OS and
 * country is an ordered table of (key, label) rules searched first-match;
 * the device class is an "any of these substrings" test.
 */
module Classifiers {
  import opened Text

  /** One entry of an ordered lookup table: (key, label). */
  type Rule = (string, string)

  const BROWSER_RULES: seq<Rule> :=
    [("Chrome", "Chrome"), ("Firefox", "Firefox"), ("Safari", "Safari"), ("Edge", "Edge"), ("Opera", "Opera")]

  const OS_RULES: seq<Rule> :=
    [("Windows", "Windows"), ("Mac", "Mac"), ("Linux", "Linux"), ("Android", "Android"), ("iOS", "iOS")]

  const MOBILE_INDICATORS: seq<string> := ["Mobile", "Android", "iPhone", "iPad"]

  const IP_RANGES: seq<Rule> :=
    [("200.81", "Argentina"), ("190.", "Chile"), ("181.", "Chile"), ("200.1", "Brasil"),
     ("186.", "Colombia"), ("200.32", "Uruguay")]

  /** Rule `k` is the first rule of the table whose key satisfies `hit`. */
  predicate FirstHit(rules: seq<Rule>, hit: string -> bool, k: int) {
    0 <= k < |rules| && hit(rules[k].0) && forall j :: 0 <= j < k ==> !hit(rules[j].0)
  }

  /** No key of the table satisfies `hit`. */
  predicate NoHit(rules: seq<Rule>, hit: string -> bool) {
    forall k :: 0 <= k < |rules| ==> !hit(rules[k].0)
  }

  /**
   * The loop `for key, value in table.items(): if hit(key): return value`
   * followed by `return fallback`.
   */
  function FirstMatch(rules: seq<Rule>, hit: string -> bool, fallback: string): (result: string)
    ensures NoHit(rules, hit) ==> result == fallback
    ensures forall k :: FirstHit(rules, hit, k) ==> result == rules[k].1
    ensures result == fallback || exists r :: r in rules && hit(r.0) && result == r.1
  {
    if rules == [] then fallback
    else if hit(rules[0].0) then rules[0].1
    else
      var result := FirstMatch(rules[1..], hit, fallback);
      assert forall k :: FirstHit(rules, hit, k) ==> k > 0 && FirstHit(rules[1..], hit, k - 1);
      result
  }

  /** Either no rule hits, or exactly one rule is the first hit. */
  lemma {:induction false} FirstHitExists(rules: seq<Rule>, hit: string -> bool)
    ensures NoHit(rules, hit) || exists k :: FirstHit(rules, hit, k)
    ensures forall k, k' :: FirstHit(rules, hit, k) && FirstHit(rules, hit, k') ==> k == k'
  {
    if rules != [] {
      if hit(rules[0].0) {
        assert FirstHit(rules, hit, 0);
      } else {
        FirstHitExists(rules[1..], hit);
        if !NoHit(rules[1..], hit) {
          var k :| FirstHit(rules[1..], hit, k);
          assert FirstHit(rules, hit, k + 1);
        } else {
          assert forall k :: 0 < k < |rules| ==> rules[k] == rules[1..][k - 1];
        }
      }
    }
  }

  /** `extract_browser`. */
  function ExtractBrowser(userAgent: string): (browser: string)
    ensures browser in {"Chrome", "Firefox", "Safari", "Edge", "Opera", "Other"}
    ensures browser == "Other" <==> NoHit(BROWSER_RULES, key => Contains(userAgent, key))
    ensures forall k :: FirstHit(BROWSER_RULES, key => Contains(userAgent, key), k) ==> browser == BROWSER_RULES[k].1
  {
    FirstMatch(BROWSER_RULES, key => Contains(userAgent, key), "Other")
  }

  /** A user agent naming Chrome is Chrome, whatever else it names (Safari, Edge, ...). */
  lemma ChromeWins(userAgent: string)
    requires Contains(userAgent, "Chrome")
    ensures ExtractBrowser(userAgent) == "Chrome"
  {
    assert FirstHit(BROWSER_RULES, key => Contains(userAgent, key), 0);
  }

  /** Firefox is reported when the user agent names Firefox and not Chrome. */
  lemma FirefoxUnlessChrome(userAgent: string)
    requires Contains(userAgent, "Firefox") && !Contains(userAgent, "Chrome")
    ensures ExtractBrowser(userAgent) == "Firefox"
  {
    assert FirstHit(BROWSER_RULES, key => Contains(userAgent, key), 1);
  }

  /** `extract_os`. */
  function ExtractOs(userAgent: string): (os: string)
    ensures os in {"Windows", "Mac", "Linux", "Android", "iOS", "Other"}
    ensures os == "Other" <==> NoHit(OS_RULES, key => Contains(userAgent, key))
    ensures forall k :: FirstHit(OS_RULES, key => Contains(userAgent, key), k) ==> os == OS_RULES[k].1
  {
    FirstMatch(OS_RULES, key => Contains(userAgent, key), "Other")
  }

  /**
   * Table order shadows later rules: a user agent naming Linux is never
   * Android, and one naming Mac is never iOS.
   */
  lemma OsShadowing(userAgent: string)
    ensures Contains(userAgent, "Linux") ==> ExtractOs(userAgent) in {"Windows", "Mac", "Linux"}
    ensures Contains(userAgent, "Mac") ==> ExtractOs(userAgent) in {"Windows", "Mac"}
  {
    var hit := key => Contains(userAgent, key);
    FirstHitExists(OS_RULES, hit);
    if Contains(userAgent, "Linux") {
      assert hit(OS_RULES[2].0);
      var k :| FirstHit(OS_RULES, hit, k);
      assert k <= 2;
    }
    if Contains(userAgent, "Mac") {
      assert hit(OS_RULES[1].0);
      var k :| FirstHit(OS_RULES, hit, k);
      assert k <= 1;
    }
  }

  /** Python's `any(key in text for key in keys)`. */
  function AnyContained(text: string, keys: seq<string>): (found: bool)
    ensures found <==> exists k :: 0 <= k < |keys| && Contains(text, keys[k])
  {
    if keys == [] then false
    else
      var found := Contains(text, keys[0]) || AnyContained(text, keys[1..]);
      assert forall k :: 0 < k < |keys| ==> keys[k] == keys[1..][k - 1];
      found
  }

  /** `extract_device`: Mobile exactly when some mobile indicator occurs, otherwise Desktop. */
  function ExtractDevice(userAgent: string): (device: string)
    ensures device == "Mobile" || device == "Desktop"
    ensures device == "Mobile" <==> exists k :: 0 <= k < |MOBILE_INDICATORS| && Contains(userAgent, MOBILE_INDICATORS[k])
  {
    if AnyContained(userAgent, MOBILE_INDICATORS) then "Mobile" else "Desktop"
  }

  /** `geolocate_ip`: the country of the first prefix the address literally starts with. */
  function GeolocateIp(ip: string): (country: string)
    ensures country in {"Argentina", "Chile", "Brasil", "Colombia", "Uruguay", "Otros"}
    ensures country == "Otros" <==> NoHit(IP_RANGES, prefix => StartsWith(ip, prefix))
    ensures forall k :: FirstHit(IP_RANGES, prefix => StartsWith(ip, prefix), k) ==> country == IP_RANGES[k].1
  {
    FirstMatch(IP_RANGES, prefix => StartsWith(ip, prefix), "Otros")
  }

  /** Every `200.81` address is Argentina. */
  lemma ArgentinaPrefix(ip: string)
    requires StartsWith(ip, "200.81")
    ensures GeolocateIp(ip) == "Argentina"
  {
    assert FirstHit(IP_RANGES, prefix => StartsWith(ip, prefix), 0);
  }

  /** Every `200.1` address is Brasil: no earlier prefix can match it. */
  lemma BrasilPrefix(ip: string)
    requires StartsWith(ip, "200.1")
    ensures GeolocateIp(ip) == "Brasil"
  {
    assert ip[4] == '1' && ip[0] == '2';
    assert !StartsWith(ip, "200.81") && !StartsWith(ip, "190.") && !StartsWith(ip, "181.");
    assert FirstHit(IP_RANGES, prefix => StartsWith(ip, prefix), 3);
  }

  /** The last rule is reachable: every `200.32` address is Uruguay. */
  lemma UruguayPrefix(ip: string)
    requires StartsWith(ip, "200.32")
    ensures GeolocateIp(ip) == "Uruguay"
  {
    assert ip[4] == '3' && ip[0] == '2';
    assert !StartsWith(ip, "200.81") && !StartsWith(ip, "190.") && !StartsWith(ip, "181.");
    assert !StartsWith(ip, "200.1") && !StartsWith(ip, "186.");
    assert FirstHit(IP_RANGES, prefix => StartsWith(ip, prefix), 5);
  }

  /** Both `190.` and `181.` map to Chile. */
  lemma ChilePrefixes(ip: string)
    requires StartsWith(ip, "190.") || StartsWith(ip, "181.")
    ensures GeolocateIp(ip) == "Chile"
  {
    assert ip[0] == '1';
    if StartsWith(ip, "190.") {
      assert FirstHit(IP_RANGES, prefix => StartsWith(ip, prefix), 1);
    } else {
      assert ip[1] == '8';
      assert FirstHit(IP_RANGES, prefix => StartsWith(ip, prefix), 2);
    }
  }
}
