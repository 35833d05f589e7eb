/**
 * Signature matching (`detect_signature_attack` in IDS.py and IDS_Network.py).
 *
 * Both variants compile the same two case-insensitive alternations of literal
 * strings and test the SQL one first. Every alternative is a plain lower-case
 * string, so a regex search with IGNORECASE is modelled as a search for the
 * token in the ASCII-lower-cased text.
 */
module Signature {
  import opened Wrappers

  datatype Label = SqlInjection | XssAttack {
    /** The string the source returns and stores as the attack type. */
    function Name(): string {
      match this
      case SqlInjection => "SQL Injection"
      case XssAttack => "XSS Attack"
    }
  }

  /** The alternatives of SQLI_PATTERN, in the order they are written. */
  const SqlTokens: seq<string> := ["union select", "drop table", "--", "or 1=1", "insert into"]

  /** The alternatives of XSS_PATTERN, in the order they are written. */
  const XssTokens: seq<string> := ["<script>", "onerror=", "alert(", "<img"]

  function LowerChar(c: char): char {
    if 'A' <= c <= 'Z' then (c as int + 32) as char else c
  }

  function LowerAscii(s: string): string {
    seq(|s|, i requires 0 <= i < |s| => LowerChar(s[i]))
  }

  /** `pat` occurs in `text` starting at index `i`. */
  ghost predicate OccursAt(pat: string, text: string, i: int) {
    0 <= i && i + |pat| <= |text| && text[i..i + |pat|] == pat
  }

  /** The reference meaning of "search finds `pat` in `text`". */
  ghost predicate Contains(text: string, pat: string) {
    exists i :: OccursAt(pat, text, i)
  }

  /** A left-to-right search, the executable counterpart of Contains. */
  function Occurs(pat: string, text: string): bool
    decreases |text|
  {
    if |text| < |pat| then false
    else text[..|pat|] == pat || Occurs(pat, text[1..])
  }

  lemma {:induction false} OccursIff(pat: string, text: string)
    ensures Occurs(pat, text) <==> Contains(text, pat)
    decreases |text|
  {
    if |text| < |pat| {
    } else if text[..|pat|] == pat {
      assert OccursAt(pat, text, 0);
    } else {
      OccursIff(pat, text[1..]);
      if Contains(text[1..], pat) {
        var i :| OccursAt(pat, text[1..], i);
        assert text[1..][i..i + |pat|] == text[i + 1..i + 1 + |pat|];
        assert OccursAt(pat, text, i + 1);
      }
      if Contains(text, pat) {
        var i :| OccursAt(pat, text, i);
        assert i != 0;
        assert text[1..][i - 1..i - 1 + |pat|] == text[i..i + |pat|];
        assert OccursAt(pat, text[1..], i - 1);
      }
    }
  }

  /** Some alternative of `tokens` is found in the lower-cased `data`. */
  ghost predicate MentionsAny(data: string, tokens: seq<string>) {
    exists k :: 0 <= k < |tokens| && Contains(LowerAscii(data), tokens[k])
  }

  /** The executable alternation: some token is found by the search. */
  function MatchesAny(text: string, tokens: seq<string>): bool {
    exists k | 0 <= k < |tokens| :: Occurs(tokens[k], text)
  }

  lemma MatchesAnyIff(data: string, tokens: seq<string>)
    ensures MatchesAny(LowerAscii(data), tokens) <==> MentionsAny(data, tokens)
  {
    forall k | 0 <= k < |tokens| {
      OccursIff(tokens[k], LowerAscii(data));
    }
  }

  /**
   * `detect_signature_attack`: the SQL label when any SQL token is present
   * (whatever else is), else the XSS label when an XSS token is present,
   * else nothing.
   */
  function Detect(data: string): (r: Option<Label>)
    ensures r == Some(SqlInjection) <==> MentionsAny(data, SqlTokens)
    ensures r == Some(XssAttack) <==> !MentionsAny(data, SqlTokens) && MentionsAny(data, XssTokens)
    ensures r == None <==> !MentionsAny(data, SqlTokens) && !MentionsAny(data, XssTokens)
  {
    var text := LowerAscii(data);
    MatchesAnyIff(data, SqlTokens);
    MatchesAnyIff(data, XssTokens);
    if MatchesAny(text, SqlTokens) then Some(SqlInjection)
    else if MatchesAny(text, XssTokens) then Some(XssAttack)
    else None
  }

  /** A signature found in one request surface: the label and that surface's text. */
  datatype Hit = Hit(kind: Label, payload: string)

  /** The first surface, in the given order, that the matcher flags. */
  function FirstHit(sources: seq<string>): Option<Hit>
    decreases |sources|
  {
    if |sources| == 0 then None
    else match Detect(sources[0])
      case Some(l) => Some(Hit(l, sources[0]))
      case None => FirstHit(sources[1..])
  }

  /** Surface `i` is flagged with `h`, and no earlier surface is flagged. */
  ghost predicate FirstHitAt(sources: seq<string>, i: int, h: Hit) {
    && 0 <= i < |sources|
    && Detect(sources[i]) == Some(h.kind)
    && h.payload == sources[i]
    && forall j :: 0 <= j < i ==> Detect(sources[j]).None?
  }

  lemma {:induction false} FirstHitIsFirst(sources: seq<string>)
    ensures FirstHit(sources).None? <==> forall j :: 0 <= j < |sources| ==> Detect(sources[j]).None?
    ensures FirstHit(sources).Some? ==> exists i :: FirstHitAt(sources, i, FirstHit(sources).value)
    decreases |sources|
  {
    if |sources| == 0 {
    } else if Detect(sources[0]).Some? {
      assert FirstHitAt(sources, 0, FirstHit(sources).value);
    } else {
      var rest := sources[1..];
      FirstHitIsFirst(rest);
      if FirstHit(rest).Some? {
        var i :| FirstHitAt(rest, i, FirstHit(rest).value);
        assert FirstHitAt(sources, i + 1, FirstHit(sources).value);
      } else {
        forall j | 0 <= j < |sources| ensures Detect(sources[j]).None? {
          if j > 0 { assert sources[j] == rest[j - 1]; }
        }
      }
    }
  }

  /** The `for data in sources` loop of `monitor_request`, up to its first hit. */
  method ScanSources(sources: seq<string>) returns (hit: Option<Hit>)
    ensures hit == FirstHit(sources)
  {
    var i := 0;
    while i < |sources|
      invariant 0 <= i <= |sources|
      invariant FirstHit(sources[i..]) == FirstHit(sources)
    {
      var found := Detect(sources[i]);
      if found.Some? {
        return Some(Hit(found.value, sources[i]));
      }
      assert sources[i..][1..] == sources[i + 1..];
      i := i + 1;
    }
    return None;
  }

  /** A body carrying a DROP TABLE statement and a comment terminator is SQL injection. */
  lemma DropTableBodyIsSql()
    ensures Detect("1; DROP TABLE users;--") == Some(SqlInjection)
  {
    var text := LowerAscii("1; DROP TABLE users;--");
    assert text[20..22] == "--";
    assert OccursAt(SqlTokens[2], text, 20);
  }

  /** Upper case does not hide a token. */
  lemma UnionSelectIsSql()
    ensures Detect("UNION SELECT * FROM users") == Some(SqlInjection)
  {
    var text := LowerAscii("UNION SELECT * FROM users");
    assert text[0..12] == "union select";
    assert OccursAt(SqlTokens[0], text, 0);
  }
}
