/** Reading a cookie out of `document.cookie`, and the show-traces preference stored
    as a cookie holding "1" or "0".

    The browser's cookie jar is abstracted as a sequence of name/value pairs with
    distinct names: assigning to `document.cookie` adds or replaces one pair, and
    reading `document.cookie` renders the jar as `n1=v1; n2=v2; ...`. URI encoding and
    decoding are the identity here (the cookie name is unreserved ASCII and the values
    written are "1" and "0"). */
module Cookies {
  import opened Wrappers
  import opened Text

  const ShowTracesCookieKey := "fish_market_show_traces"
  /** One year, in seconds. */
  const ShowTracesCookieMaxAge: nat := 60 * 60 * 24 * 365

  /** The chunks `readCookie` walks: none for an empty cookie string, otherwise the
      pieces between semicolons. */
  function CookieChunks(cookie: string): (chunks: seq<string>)
    ensures cookie == "" <==> chunks == []
    ensures chunks != [] ==> Join(chunks, ';') == cookie
    ensures forall k :: 0 <= k < |chunks| ==> ';' !in chunks[k]
  {
    if cookie == "" then [] else Split(cookie, ';')
  }

  /** Whether a chunk, once trimmed, starts with `prefix`. */
  predicate ChunkMatches(chunk: string, prefix: string)
  {
    StartsWith(Trim(chunk), prefix)
  }

  /** What `readCookie` returns for a matching chunk: the trimmed text after the prefix. */
  function ChunkValue(chunk: string, prefix: string): string
    requires ChunkMatches(chunk, prefix)
  {
    Trim(chunk)[|prefix|..]
  }

  /** Chunk `k` is the first one whose trimmed text starts with `prefix`. */
  predicate IsFirstMatch(chunks: seq<string>, prefix: string, k: int)
  {
    && 0 <= k < |chunks|
    && ChunkMatches(chunks[k], prefix)
    && forall j :: 0 <= j < k ==> !ChunkMatches(chunks[j], prefix)
  }

  /** No chunk's trimmed text starts with `prefix`. */
  predicate NoMatch(chunks: seq<string>, prefix: string)
  {
    forall k :: 0 <= k < |chunks| ==> !ChunkMatches(chunks[k], prefix)
  }

  /** The index of the first flag that is set, or the length when none is. */
  function FirstSet(flags: seq<bool>): (i: nat)
    ensures i <= |flags|
    ensures forall j :: 0 <= j < i ==> !flags[j]
    ensures i < |flags| ==> flags[i]
  {
    if |flags| == 0 || flags[0] then 0 else 1 + FirstSet(flags[1..])
  }

  /** For each chunk, whether its trimmed text starts with `prefix`. */
  function Matches(chunks: seq<string>, prefix: string): (flags: seq<bool>)
    ensures |flags| == |chunks|
    ensures forall k :: 0 <= k < |chunks| ==> flags[k] == ChunkMatches(chunks[k], prefix)
  {
    seq(|chunks|, k requires 0 <= k < |chunks| => ChunkMatches(chunks[k], prefix))
  }

  /** The first matching chunk's value, scanning left to right. */
  function FirstMatch(chunks: seq<string>, prefix: string): (r: Option<string>)
    ensures r.None? <==> NoMatch(chunks, prefix)
    ensures forall k :: IsFirstMatch(chunks, prefix, k) ==> r == Some(ChunkValue(chunks[k], prefix))
  {
    var flags := Matches(chunks, prefix);
    var i := FirstSet(flags);
    if i == |chunks| then None
    else
      assert forall k :: IsFirstMatch(chunks, prefix, k) ==> k == i by {
        forall k | IsFirstMatch(chunks, prefix, k) ensures k == i {
        }
      }
      Some(ChunkValue(chunks[i], prefix))
  }

  /** `readCookie(name)`: the value of the first chunk of `cookie` whose trimmed text
      starts with `name=`; later chunks with the same name are ignored; nothing for an
      empty cookie string or when no chunk matches. */
  function ReadCookie(cookie: string, name: string): (r: Option<string>)
    ensures cookie == "" ==> r == None
    ensures r.None? <==> NoMatch(CookieChunks(cookie), name + "=")
    ensures forall k :: IsFirstMatch(CookieChunks(cookie), name + "=", k) ==>
              r == Some(ChunkValue(CookieChunks(cookie)[k], name + "="))
  {
    FirstMatch(CookieChunks(cookie), name + "=")
  }

  /** The value `persistShowTracesPreference` writes. */
  function ShowTracesValue(enabled: bool): (v: string)
    ensures v == "1" || v == "0"
    ensures v == "1" <==> enabled
  {
    if enabled then "1" else "0"
  }

  /** How `readShowTracesPreference` decodes the cookie's value: on exactly for "1" and
      "true", so a missing cookie and every other value are off; decoding inverts
      `ShowTracesValue`. */
  function DecodeShowTraces(value: Option<string>): (enabled: bool)
    ensures value.None? ==> !enabled
    ensures value == Some("true") ==> enabled
    ensures value.Some? && value.value != "1" && value.value != "true" ==> !enabled
    ensures forall b :: value == Some(ShowTracesValue(b)) ==> enabled == b
  {
    value == Some("1") || value == Some("true")
  }

  /** `readShowTracesPreference` on a given cookie string: on exactly when the first
      show-traces chunk holds "1" or "true". */
  function ReadShowTraces(cookie: string): (enabled: bool)
    ensures cookie == "" ==> !enabled
    ensures enabled <==> ReadCookie(cookie, ShowTracesCookieKey) in {Some("1"), Some("true")}
  {
    DecodeShowTraces(ReadCookie(cookie, ShowTracesCookieKey))
  }

  /** The string `persistShowTracesPreference` assigns to `document.cookie`. */
  function ShowTracesAssignment(enabled: bool): (s: string)
    ensures StartsWith(s, ShowTracesCookieKey + "=" + ShowTracesValue(enabled) + ";")
  {
    ShowTracesCookieKey + "=" + ShowTracesValue(enabled) + ";" + CookieAttributes()
  }

  /** The attributes after the show-traces pair: site-wide path, one year's lifetime,
      lax same-site policy. Only the browser interprets them. */
  function CookieAttributes(): string
  {
    " Path=/; Max-Age=" + Decimal(ShowTracesCookieMaxAge) + "; SameSite=Lax"
  }

  // ---------------------------------------------------------------------------
  // The browser's cookie jar

  datatype Cookie = Cookie(name: string, value: string)

  /** A cookie name the jar can hold: non-empty, no whitespace, `;` or `=`. */
  predicate ValidName(n: string)
  {
    n != [] && forall i :: 0 <= i < |n| ==> !IsWhitespace(n[i]) && n[i] != ';' && n[i] != '='
  }

  /** A cookie value the jar can hold: no `;`, no whitespace at either end. */
  predicate ValidValue(v: string)
  {
    ';' !in v && (v == [] || (!IsWhitespace(v[0]) && !IsWhitespace(v[|v| - 1])))
  }

  /** Every cookie is well formed and no name occurs twice. */
  predicate ValidJar(jar: seq<Cookie>)
  {
    && (forall k :: 0 <= k < |jar| ==> ValidName(jar[k].name) && ValidValue(jar[k].value))
    && (forall j, k :: 0 <= j < k < |jar| ==> jar[j].name != jar[k].name)
  }

  function Pair(c: Cookie): string
  {
    c.name + "=" + c.value
  }

  /** The chunks of `document.cookie` as the browser renders the jar: `name=value`,
      every one after the first preceded by a space. */
  function RenderedChunks(jar: seq<Cookie>): (chunks: seq<string>)
    ensures |chunks| == |jar|
  {
    seq(|jar|, k requires 0 <= k < |jar| => (if k == 0 then "" else " ") + Pair(jar[k]))
  }

  /** Reading `document.cookie`. */
  function DocumentCookie(jar: seq<Cookie>): string
  {
    Join(RenderedChunks(jar), ';')
  }

  lemma JoinStartsWithFirst(pieces: seq<string>, sep: char)
    requires |pieces| >= 1
    ensures StartsWith(Join(pieces, sep), pieces[0])
  {
  }

  /** The jar renders to chunks that `readCookie` gets back exactly. */
  lemma ChunksOfDocumentCookie(jar: seq<Cookie>)
    requires ValidJar(jar)
    ensures CookieChunks(DocumentCookie(jar)) == RenderedChunks(jar)
  {
    var chunks := RenderedChunks(jar);
    if |jar| > 0 {
      JoinStartsWithFirst(chunks, ';');
      assert |Pair(jar[0])| > 0;
      assert DocumentCookie(jar) != "";
      forall k | 0 <= k < |chunks| ensures ';' !in chunks[k] {
        var c := jar[k];
        assert ';' !in c.name by {
          forall i | 0 <= i < |c.name| ensures c.name[i] != ';' {
          }
        }
        assert Pair(c) == c.name + "=" + c.value;
      }
      SplitOfJoin(chunks, ';');
    }
  }

  /** A rendered chunk trims to its `name=value` pair. */
  lemma TrimRenderedChunk(jar: seq<Cookie>, k: nat)
    requires ValidJar(jar) && k < |jar|
    ensures Trim(RenderedChunks(jar)[k]) == Pair(jar[k])
  {
    var p := Pair(jar[k]);
    assert p[0] == jar[k].name[0];
    assert !IsWhitespace(p[|p| - 1]);
    TrimOfClean(p);
    if k > 0 {
      TrimLeadingSpace(p);
    }
  }

  /** A pair starts with `n=` exactly when its name is `n`. */
  lemma PairMatchesName(c: Cookie, n: string)
    requires ValidName(c.name) && ValidName(n)
    ensures StartsWith(Pair(c), n + "=") <==> c.name == n
  {
    var p := Pair(c);
    if c.name != n {
      if |c.name| < |n| {
        assert p[|c.name|] != (n + "=")[|c.name|];
      } else if |c.name| > |n| {
        assert p[|n|] != (n + "=")[|n|];
      } else {
        assert p[..|n|] != n;
      }
    }
  }

  /** A rendered chunk matches `n=` exactly when its cookie is named `n`. */
  lemma RenderedChunkMatches(jar: seq<Cookie>, k: nat, n: string)
    requires ValidJar(jar) && k < |jar| && ValidName(n)
    ensures ChunkMatches(RenderedChunks(jar)[k], n + "=") <==> jar[k].name == n
  {
    TrimRenderedChunk(jar, k);
    PairMatchesName(jar[k], n);
  }

  /** A rendered chunk's value under its own name is the cookie's value. */
  lemma RenderedChunkValue(jar: seq<Cookie>, k: nat)
    requires ValidJar(jar) && k < |jar|
    ensures ChunkMatches(RenderedChunks(jar)[k], jar[k].name + "=")
    ensures ChunkValue(RenderedChunks(jar)[k], jar[k].name + "=") == jar[k].value
  {
    var c := jar[k];
    TrimRenderedChunk(jar, k);
    assert Pair(c)[..|c.name + "="|] == c.name + "=";
    assert Pair(c)[|c.name + "="|..] == c.value;
  }

  /** Reading a cookie out of the rendered jar finds the jar's value for that name. */
  lemma JarLookupPresent(jar: seq<Cookie>, k: nat)
    requires ValidJar(jar) && k < |jar|
    ensures ReadCookie(DocumentCookie(jar), jar[k].name) == Some(jar[k].value)
  {
    var n := jar[k].name;
    var chunks := RenderedChunks(jar);
    var prefix := n + "=";
    forall j | 0 <= j < k
      ensures !ChunkMatches(chunks[j], prefix)
    {
      RenderedChunkMatches(jar, j, n);
    }
    RenderedChunkValue(jar, k);
    assert IsFirstMatch(chunks, prefix, k);
    ChunksOfDocumentCookie(jar);
    assert ReadCookie(DocumentCookie(jar), n) == FirstMatch(chunks, prefix);
  }

  /** Reading a name the jar does not hold finds nothing. */
  lemma JarLookupAbsent(jar: seq<Cookie>, n: string)
    requires ValidJar(jar) && ValidName(n)
    requires forall k :: 0 <= k < |jar| ==> jar[k].name != n
    ensures ReadCookie(DocumentCookie(jar), n) == None
  {
    var chunks := RenderedChunks(jar);
    forall k | 0 <= k < |jar|
      ensures !ChunkMatches(chunks[k], n + "=")
    {
      RenderedChunkMatches(jar, k, n);
    }
    ChunksOfDocumentCookie(jar);
    assert ReadCookie(DocumentCookie(jar), n) == FirstMatch(chunks, n + "=");
  }

  /** Storing a cookie: it replaces the cookie of the same name, or joins the end. */
  function SetCookie(jar: seq<Cookie>, c: Cookie): (r: seq<Cookie>)
    requires ValidJar(jar) && ValidName(c.name) && ValidValue(c.value)
    ensures ValidJar(r)
    ensures c in r
    ensures forall d :: d in jar && d.name != c.name ==> d in r
    ensures forall d :: d in r ==> d == c || d in jar
  {
    if |jar| == 0 then [c]
    else if jar[0].name == c.name then
      assert forall d :: d in jar[1..] ==> d.name != c.name;
      [c] + jar[1..]
    else
      var rest := SetCookie(jar[1..], c);
      assert forall d :: d in rest ==> d.name != jar[0].name;
      [jar[0]] + rest
  }

  /** How the browser reads an assignment to `document.cookie`, a simplified form of the
      name-value step of section 5.2 of RFC 6265: the text before the first `;`, split at
      its first `=`, both halves trimmed; anything without `=` or with an unusable name is
      ignored. The simplification trims JavaScript whitespace rather than only spaces and
      tabs, and refuses names with inner whitespace, which the jar cannot hold. */
  function ParseAssignment(s: string): (c: Option<Cookie>)
    ensures c.Some? ==> ValidName(c.value.name) && ValidValue(c.value.value)
  {
    var pair := TakeUntil(s, ';');
    if '=' !in pair then None
    else
      var rawName := TakeUntil(pair, '=');
      var name := Trim(rawName);
      var value := Trim(pair[|rawName| + 1..]);
      assert ';' !in value by {
        forall i | 0 <= i < |value| ensures value[i] != ';' {
          assert value[i] in pair;
        }
      }
      if ValidName(name) then Some(Cookie(name, value)) else None
  }

  /** Assigning a string to `document.cookie`. */
  function WriteCookie(jar: seq<Cookie>, assignment: string): (r: seq<Cookie>)
    requires ValidJar(jar)
    ensures ValidJar(r)
  {
    match ParseAssignment(assignment)
    case None => jar
    case Some(c) => SetCookie(jar, c)
  }

  /** `persistShowTracesPreference`: the jar then holds the show-traces cookie with the
      value for `enabled`, no other cookie of that name, and every other cookie as before. */
  function PersistShowTraces(jar: seq<Cookie>, enabled: bool): (r: seq<Cookie>)
    requires ValidJar(jar)
    ensures ValidJar(r)
    ensures Cookie(ShowTracesCookieKey, ShowTracesValue(enabled)) in r
    ensures forall d :: d in r && d.name == ShowTracesCookieKey ==> d.value == ShowTracesValue(enabled)
    ensures forall d :: d in jar && d.name != ShowTracesCookieKey ==> d in r
    ensures forall d :: d in r && d.name != ShowTracesCookieKey ==> d in jar
  {
    var c := Cookie(ShowTracesCookieKey, ShowTracesValue(enabled));
    ParseShowTracesAssignment(enabled);
    var r := WriteCookie(jar, ShowTracesAssignment(enabled));
    assert r == SetCookie(jar, c);
    SoleCookieOfName(r, c);
    r
  }

  /** In a valid jar, the only cookie carrying a held cookie's name is that cookie. */
  lemma SoleCookieOfName(jar: seq<Cookie>, c: Cookie)
    requires ValidJar(jar) && c in jar
    ensures forall d :: d in jar && d.name == c.name ==> d == c
  {
    forall d | d in jar && d.name == c.name ensures d == c {
      var i :| 0 <= i < |jar| && jar[i] == d;
      var j :| 0 <= j < |jar| && jar[j] == c;
      assert i == j;
    }
  }

  /** The text before the first `;` of `name=value;attributes` is `name=value`. */
  lemma PairBeforeSemicolon(name: string, value: string, attributes: string)
    requires ValidName(name) && ValidValue(value)
    ensures TakeUntil(name + "=" + value + ";" + attributes, ';') == Pair(Cookie(name, value))
  {
    var p := Pair(Cookie(name, value));
    assert name + "=" + value + ";" + attributes == p + [';'] + attributes;
    assert ';' !in p by {
      forall i | 0 <= i < |p| ensures p[i] != ';' {
        if i < |name| {
          assert p[i] == name[i];
        } else if i > |name| {
          assert p[i] == value[i - |name| - 1];
        }
      }
    }
    SplitAtFirstSeparator(p, attributes, ';');
  }

  /** The text before the first `=` of `name=value` is `name`. */
  lemma NameBeforeEquals(name: string, value: string)
    requires ValidName(name)
    ensures TakeUntil(Pair(Cookie(name, value)), '=') == name
  {
    assert '=' !in name by {
      forall i | 0 <= i < |name| ensures name[i] != '=' {
      }
    }
    assert Pair(Cookie(name, value)) == name + ['='] + value;
    SplitAtFirstSeparator(name, value, '=');
  }

  /** The browser reads `name=value;attributes` as the cookie `name` with `value`. */
  lemma ParseSimpleAssignment(name: string, value: string, attributes: string)
    requires ValidName(name) && ValidValue(value)
    ensures ParseAssignment(name + "=" + value + ";" + attributes) == Some(Cookie(name, value))
  {
    var p := Pair(Cookie(name, value));
    PairBeforeSemicolon(name, value, attributes);
    NameBeforeEquals(name, value);
    assert p[|name|] == '=';
    assert p[|name| + 1..] == value;
    TrimOfClean(name);
    if value != [] {
      TrimOfClean(value);
    }
  }

  lemma KeyIsValidName()
    ensures ValidName(ShowTracesCookieKey)
  {
  }

  /** The browser reads the show-traces assignment as the cookie
      `fish_market_show_traces` with value "1" or "0". */
  lemma ParseShowTracesAssignment(enabled: bool)
    ensures ParseAssignment(ShowTracesAssignment(enabled))
            == Some(Cookie(ShowTracesCookieKey, ShowTracesValue(enabled)))
  {
    KeyIsValidName();
    ParseSimpleAssignment(ShowTracesCookieKey, ShowTracesValue(enabled), CookieAttributes());
  }

  /** Round trip: whatever the jar held before, reading the show-traces preference back
      after persisting `enabled` gives `enabled`, and no other cookie changes. */
  lemma ShowTracesRoundTrip(jar: seq<Cookie>, enabled: bool)
    requires ValidJar(jar)
    ensures ReadShowTraces(DocumentCookie(PersistShowTraces(jar, enabled))) == enabled
    ensures forall d :: d in jar && d.name != ShowTracesCookieKey ==>
              d in PersistShowTraces(jar, enabled)
  {
    var c := Cookie(ShowTracesCookieKey, ShowTracesValue(enabled));
    var r := PersistShowTraces(jar, enabled);
    ParseShowTracesAssignment(enabled);
    assert r == SetCookie(jar, c);
    assert c in r;
    var k :| 0 <= k < |r| && r[k] == c;
    JarLookupPresent(r, k);
  }

  /** A jar without the show-traces cookie reads as "off". */
  lemma MissingShowTracesReadsOff(jar: seq<Cookie>)
    requires ValidJar(jar)
    requires forall k :: 0 <= k < |jar| ==> jar[k].name != ShowTracesCookieKey
    ensures !ReadShowTraces(DocumentCookie(jar))
  {
    KeyIsValidName();
    JarLookupAbsent(jar, ShowTracesCookieKey);
  }
}
