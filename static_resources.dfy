/**
 * The `es_estatico` flag of the normaliser. The extension list is joined with
 * `|` and handed to a case-insensitive regular-expression search, so every
 * alternative's leading `.` is the regex wildcard (any character but a
 * newline), not a literal dot, and a match may sit anywhere in the URL.
 * A missing URL is not static.
 */
module StaticResources {
  import opened Wrappers
  import opened Text

  const STATIC_EXTENSIONS: seq<string> :=
    [".css", ".js", ".jpg", ".jpeg", ".png", ".gif", ".ico", ".svg", ".woff", ".ttf"]

  /** One atom of a regular expression made of plain text: the wildcard `.` or a literal character. */
  datatype Atom = Wildcard | Literal(c: char)

  type Pattern = seq<Atom>

  /** Reads one extension as a regular expression: `.` is the wildcard, everything else literal. */
  function Compile(text: string): (pattern: Pattern)
    ensures |pattern| == |text|
  {
    seq(|text|, i requires 0 <= i < |text| => if text[i] == '.' then Wildcard else Literal(text[i]))
  }

  /** The alternatives of `'|'.join(STATIC_EXTENSIONS)`. */
  function Alternatives(): seq<Pattern> {
    seq(|STATIC_EXTENSIONS|, k requires 0 <= k < |STATIC_EXTENSIONS| => Compile(STATIC_EXTENSIONS[k]))
  }

  /** Whether one atom accepts one character, ignoring case. */
  predicate AtomMatches(a: Atom, c: char) {
    match a
    case Wildcard => c != '\n'
    case Literal(l) => Lower(c) == Lower(l)
  }

  /** The pattern matches a prefix of `s`. */
  predicate MatchPrefix(p: Pattern, s: string)
    decreases |p|
  {
    p == [] || (s != [] && AtomMatches(p[0], s[0]) && MatchPrefix(p[1..], s[1..]))
  }

  /** Some alternative matches a prefix of `s`. */
  predicate AnyAlternative(alts: seq<Pattern>, s: string) {
    alts != [] && (MatchPrefix(alts[0], s) || AnyAlternative(alts[1..], s))
  }

  /** `re.search`: try every start position from left to right. */
  predicate Search(alts: seq<Pattern>, s: string)
    decreases |s|
  {
    AnyAlternative(alts, s) || (s != [] && Search(alts, s[1..]))
  }

  /** `df['url'].str.contains(pattern, case=False, na=False)` for one cell. */
  predicate IsStatic(url: Option<string>)
    ensures IsStatic(url) ==> url.Some?
  {
    url.Some? && Search(Alternatives(), url.value)
  }

  /** The pattern matches `s` at position `i`. */
  predicate MatchesAt(p: Pattern, s: string, i: int) {
    0 <= i && i + |p| <= |s| && forall j :: 0 <= j < |p| ==> AtomMatches(p[j], s[i + j])
  }

  /**
   * Extension `k` is found in `url` with its wildcard on position `i`: the
   * character at `i` is anything but a newline and the extension's letters
   * follow it, in any case.
   */
  predicate ExtensionAt(url: string, k: int, i: int) {
    && 0 <= k < |STATIC_EXTENSIONS|
    && 0 <= i && i + |STATIC_EXTENSIONS[k]| <= |url|
    && url[i] != '\n'
    && forall j :: 1 <= j < |STATIC_EXTENSIONS[k]| ==> Lower(url[i + j]) == STATIC_EXTENSIONS[k][j]
  }

  lemma {:induction false} MatchPrefixIff(p: Pattern, s: string)
    ensures MatchPrefix(p, s) <==> MatchesAt(p, s, 0)
    decreases |p|
  {
    if p != [] && s != [] {
      MatchPrefixIff(p[1..], s[1..]);
      if MatchesAt(p, s, 0) {
        assert forall j :: 0 <= j < |p| - 1 ==> p[1..][j] == p[j + 1] && s[1..][j] == s[j + 1];
      }
      if MatchPrefix(p, s) {
        forall j | 0 <= j < |p|
          ensures AtomMatches(p[j], s[j])
        {
          if j > 0 {
            assert p[1..][j - 1] == p[j] && s[1..][j - 1] == s[j];
          }
        }
      }
    }
  }

  lemma {:induction false} AnyAlternativeIff(alts: seq<Pattern>, s: string)
    ensures AnyAlternative(alts, s) <==> exists a :: 0 <= a < |alts| && MatchesAt(alts[a], s, 0)
  {
    if alts != [] {
      MatchPrefixIff(alts[0], s);
      AnyAlternativeIff(alts[1..], s);
      if exists a :: 0 <= a < |alts| && MatchesAt(alts[a], s, 0) {
        var a :| 0 <= a < |alts| && MatchesAt(alts[a], s, 0);
        if a > 0 {
          assert alts[1..][a - 1] == alts[a];
        }
      }
    }
  }

  /** A pattern matches the tail `s[1..]` at `i` exactly when it matches `s` at `i + 1`. */
  lemma MatchesAtTail(p: Pattern, s: string, i: int)
    requires s != [] && 0 <= i
    ensures MatchesAt(p, s[1..], i) <==> MatchesAt(p, s, i + 1)
  {
    if i + |p| <= |s| - 1 {
      forall j | 0 <= j < |p|
        ensures AtomMatches(p[j], s[1..][i + j]) <==> AtomMatches(p[j], s[i + 1 + j])
      {
      }
    }
  }

  /** The left-to-right search succeeds exactly when some alternative matches at some position. */
  lemma {:induction false} SearchIff(alts: seq<Pattern>, s: string)
    ensures Search(alts, s) <==> exists a, i :: 0 <= a < |alts| && MatchesAt(alts[a], s, i)
    decreases |s|
  {
    AnyAlternativeIff(alts, s);
    if s != [] {
      SearchIff(alts, s[1..]);
      if Search(alts, s[1..]) {
        var a, i :| 0 <= a < |alts| && MatchesAt(alts[a], s[1..], i);
        MatchesAtTail(alts[a], s, i);
      }
      if exists a, i :: 0 <= a < |alts| && MatchesAt(alts[a], s, i) {
        var a, i :| 0 <= a < |alts| && MatchesAt(alts[a], s, i);
        if i > 0 {
          MatchesAtTail(alts[a], s, i - 1);
        }
      }
    } else {
      forall a, i | 0 <= a < |alts| && MatchesAt(alts[a], s, i)
        ensures MatchesAt(alts[a], s, 0)
      {
        assert i == 0;
      }
    }
  }

  /** Every extension is a dot followed by lower-case letters. */
  lemma ExtensionShape(k: int)
    requires 0 <= k < |STATIC_EXTENSIONS|
    ensures |STATIC_EXTENSIONS[k]| >= 3 && STATIC_EXTENSIONS[k][0] == '.'
    ensures forall j :: 1 <= j < |STATIC_EXTENSIONS[k]| ==> 'a' <= STATIC_EXTENSIONS[k][j] <= 'z'
  {
  }

  /** The compiled alternative `k` matches at `i` exactly when extension `k` is found with its wildcard at `i`. */
  lemma CompiledExtension(url: string, k: int, i: int)
    requires 0 <= k < |STATIC_EXTENSIONS|
    ensures MatchesAt(Alternatives()[k], url, i) <==> ExtensionAt(url, k, i)
  {
    var ext := STATIC_EXTENSIONS[k];
    var p := Alternatives()[k];
    ExtensionShape(k);
    assert p == Compile(ext);
    assert p[0] == Wildcard;
    assert forall j :: 1 <= j < |ext| ==> p[j] == Literal(ext[j]) && Lower(ext[j]) == ext[j];
    if ExtensionAt(url, k, i) {
      forall j | 0 <= j < |p|
        ensures AtomMatches(p[j], url[i + j])
      {
        if j > 0 {
          assert Lower(url[i + j]) == ext[j];
        }
      }
    }
    if MatchesAt(p, url, i) {
      assert AtomMatches(p[0], url[i + 0]);
      forall j | 1 <= j < |ext|
        ensures Lower(url[i + j]) == ext[j]
      {
        assert AtomMatches(p[j], url[i + j]);
      }
    }
  }

  /**
   * The static flag holds exactly when some extension's letters occur, in any
   * case, anywhere in the URL right after some non-newline character.
   */
  lemma StaticIff(url: Option<string>)
    ensures IsStatic(url) <==> url.Some? && exists k, i :: ExtensionAt(url.value, k, i)
  {
    if url.Some? {
      var u := url.value;
      SearchIff(Alternatives(), u);
      if IsStatic(url) {
        var k, i :| 0 <= k < |Alternatives()| && MatchesAt(Alternatives()[k], u, i);
        CompiledExtension(u, k, i);
      }
      if exists k, i :: ExtensionAt(u, k, i) {
        var k, i :| ExtensionAt(u, k, i);
        CompiledExtension(u, k, i);
      }
    }
  }

  /** Consequences of the wildcard and of searching anywhere: all of these are static. */
  lemma StaticExamples()
    ensures IsStatic(Some("/x/IMG.JPG"))
    ensures IsStatic(Some("/xcss"))
    ensures IsStatic(Some("/data.json"))
    ensures IsStatic(Some("/jsonapi"))
    ensures !IsStatic(None)
  {
    assert ExtensionAt("/x/IMG.JPG", 2, 6);
    StaticIff(Some("/x/IMG.JPG"));
    assert ExtensionAt("/xcss", 0, 1);
    StaticIff(Some("/xcss"));
    assert ExtensionAt("/data.json", 1, 5);
    StaticIff(Some("/data.json"));
    assert ExtensionAt("/jsonapi", 1, 0);
    StaticIff(Some("/jsonapi"));
  }

  /** The extension letters alone are not enough: the wildcard needs a character before them. */
  lemma NotStaticExamples()
    ensures !IsStatic(Some("css"))
    ensures !IsStatic(Some("/home"))
  {
    StaticIff(Some("css"));
    forall k, i | 0 <= k < |STATIC_EXTENSIONS| && 0 <= i
      ensures !ExtensionAt("css", k, i)
    {
      var ext := STATIC_EXTENSIONS[k];
      assert ext in STATIC_EXTENSIONS;
      if i + |ext| <= 3 {
        assert ext == ".js";
        assert Lower("css"[i + 1]) != ext[1];
      }
    }
    StaticIff(Some("/home"));
    forall k, i | 0 <= k < |STATIC_EXTENSIONS| && 0 <= i
      ensures !ExtensionAt("/home", k, i)
    {
      var ext := STATIC_EXTENSIONS[k];
      assert ext in STATIC_EXTENSIONS;
      if i + |ext| <= 5 {
        var c := "/home"[i + 1];
        assert c == 'h' || c == 'o' || c == 'm' || c == 'e';
        assert ext[1] in {'c', 'j', 'p', 'g', 'i', 's', 'w', 't'};
        assert Lower(c) != ext[1];
      }
    }
  }
}
