/** The image check of answer content: every `img` tag's source is pulled out
    with the pattern `img\s+src[^=]*=([^><]*)` (case-insensitive, global),
    and the content is rejected when a source is neither a screenshot of the
    exam system nor a rendered formula. */
module AnswerImages {
  import opened Wrappers
  import opened Text

  /** `w` (written in lower case) occurs at `i` in `s`, ASCII letters
      compared without case: the case-insensitive flag without the unicode
      flag folds no other character onto an ASCII one. */
  predicate AtCi(s: string, i: nat, w: string) {
    i + |w| <= |s| && forall k | 0 <= k < |w| :: ToLower(s[i + k]) == w[k]
  }

  /** The line terminators, which `.` does not match. */
  predicate IsLineTerminator(c: char) {
    c == '\n' || c == '\r' || c == '\U{2028}' || c == '\U{2029}'
  }

  /** A character that one `.` of a pattern without the unicode flag
      matches: `.` consumes a single UTF-16 code unit, so a character outside
      the Basic Multilingual Plane, two code units long, is not matched, and
      neither is a line terminator. */
  predicate MatchesDot(c: char) {
    !IsLineTerminator(c) && (c as int) < 0x1_0000
  }

  /** The end of the run of `\s` starting at `i`. */
  function SkipSpaces(s: string, i: nat): (r: nat)
    requires i <= |s|
    ensures i <= r <= |s|
    ensures forall k | i <= k < r :: IsSpace(s[k])
    ensures r == |s| || !IsSpace(s[r])
    decreases |s| - i
  {
    if i == |s| || !IsSpace(s[i]) then i else SkipSpaces(s, i + 1)
  }

  /** The first position from `i` holding one of `stops`, or `|s|`. */
  function FirstOf(s: string, i: nat, stops: set<char>): (r: nat)
    requires i <= |s|
    ensures i <= r <= |s|
    ensures forall k | i <= k < r :: s[k] !in stops
    ensures r < |s| ==> s[r] in stops
    decreases |s| - i
  {
    if i == |s| || s[i] in stops then i else FirstOf(s, i + 1, stops)
  }

  /** One match of the scanner: where it ends and what it captured. */
  datatype ImgMatch = ImgMatch(end: nat, src: string)

  /** The scanner tried at position `p`. `\s+` takes the whole run of
      spaces (giving some back cannot make `src` match), `[^=]*=` stops at
      the first `=` after `src`, and the capture runs to the first `<` or
      `>`, or to the end. */
  function MatchAt(s: string, p: nat): (r: Option<ImgMatch>)
    requires p <= |s|
    ensures r.Some? ==> p < r.value.end <= |s|
    ensures r.Some? ==> '<' !in r.value.src && '>' !in r.value.src
    ensures r.Some? ==> AtCi(s, p, "img") && EndsWith(s[..r.value.end], r.value.src)
  {
    if !AtCi(s, p, "img") then None
    else
      var q := SkipSpaces(s, p + 3);
      if q == p + 3 || !AtCi(s, q, "src") then None
      else
        var e := FirstOf(s, q + 3, {'='});
        if e == |s| then None
        else
          var end := FirstOf(s, e + 1, {'<', '>'});
          assert s[..end][end - (end - (e + 1))..] == s[e + 1..end];
          Some(ImgMatch(end, s[e + 1..end]))
  }

  /** The sources the global `replace` visits from position `p`: after a
      match the scan resumes where it ended, otherwise one character on. */
  function Sources(s: string, p: nat): (r: seq<string>)
    requires p <= |s|
    ensures forall k | 0 <= k < |r| :: '<' !in r[k] && '>' !in r[k]
    decreases |s| - p
  {
    if p == |s| then []
    else match MatchAt(s, p)
      case Some(m) => [m.src] + Sources(s, m.end)
      case None => Sources(s, p + 1)
  }

  /** Text with no `img` in it (in any case) has no image source. */
  lemma {:induction false} NoImgNoSources(s: string, p: nat)
    requires p <= |s|
    requires forall i | p <= i <= |s| :: !AtCi(s, i, "img")
    ensures Sources(s, p) == []
    decreases |s| - p
  {
    if p < |s| {
      NoImgNoSources(s, p + 1);
    }
  }

  /** `[0-9a-f]{8}-[0-9a-f]{4}-[0-9a-f]{4}-[0-9a-f]{4}-[0-9a-f]{12}`,
      either case. */
  predicate IsUuid(u: string) {
    |u| == 36 &&
    forall k | 0 <= k < 36 ::
      if k == 8 || k == 13 || k == 18 || k == 23 then u[k] == '-' else IsHexDigit(u[k])
  }

  /** `isScreenshotImage`: the source starts with `"/screenshot/`, a
      UUID and a closing quote, letters in either case. */
  predicate IsScreenshotSource(src: string) {
    AtCi(src, 0, "\"/screenshot/") && |src| >= 50 && IsUuid(src[13..49]) && src[49] == '"'
  }

  /** `"/math.svg\?latex` matches at `i`: the `.` is one code unit other
      than a line terminator, the rest is literal and case-sensitive. */
  predicate MathAt(src: string, i: nat) {
    && i + 16 <= |src|
    && src[i..i + 6] == "\"/math"
    && MatchesDot(src[i + 6])
    && src[i + 7..i + 16] == "svg?latex"
  }

  /** `isMathImage`: the pattern occurs anywhere in the source. */
  predicate IsMathSource(src: string) {
    exists i | 0 <= i <= |src| :: MathAt(src, i)
  }

  predicate IsValidSource(src: string) {
    IsScreenshotSource(src) || IsMathSource(src)
  }

  /** The sources kept by `filter(src => !isScreenshotImage(src) && !isMathImage(src))`. */
  function InvalidSources(srcs: seq<string>): (r: seq<string>)
    ensures |r| <= |srcs|
    ensures forall x :: x in r <==> x in srcs && !IsValidSource(x)
  {
    if srcs == [] then []
    else if IsValidSource(srcs[0]) then InvalidSources(srcs[1..])
    else [srcs[0]] + InvalidSources(srcs[1..])
  }

  /** Some source in `srcs` is neither a screenshot nor a formula. */
  predicate SomeInvalidSource(srcs: seq<string>) {
    exists k | 0 <= k < |srcs| :: !IsValidSource(srcs[k])
  }

  /** `containsInvalidImgTags(answerContent)`: some image source is neither
      a screenshot nor a formula. Content without image tags is valid. */
  function ContainsInvalidImgTags(content: string): (r: bool)
    ensures r <==> SomeInvalidSource(Sources(content, 0))
  {
    var srcs := Sources(content, 0);
    SomeInvalid(srcs);
    |InvalidSources(srcs)| != 0
  }

  /** The filter keeps something exactly when some source is invalid. */
  lemma SomeInvalid(srcs: seq<string>)
    ensures |InvalidSources(srcs)| != 0 <==> SomeInvalidSource(srcs)
  {
    var invalid := InvalidSources(srcs);
    if invalid != [] {
      var x := invalid[0];
      assert x in invalid;
      var k :| 0 <= k < |srcs| && srcs[k] == x;
      assert !IsValidSource(srcs[k]);
    }
    if SomeInvalidSource(srcs) {
      var k :| 0 <= k < |srcs| && !IsValidSource(srcs[k]);
      assert srcs[k] in srcs;
      assert srcs[k] in invalid;
    }
  }

  /** The tag `<img src="url">` has the quoted url as its only source. */
  lemma SingleImgTag(url: string)
    requires '<' !in url && '>' !in url
    ensures Sources("<img src=\"" + url + "\">", 0) == ["\"" + url + "\""]
  {
    var q := "\"" + url + "\"";
    var s := "<img src=" + q + ">";
    assert s == "<img src=\"" + url + "\">";
    assert s[0] == '<';
    assert !AtCi(s, 0, "img") by { assert ToLower(s[0]) == '<' && "img"[0] == 'i'; }
    assert AtCi(s, 1, "img") by { assert s[1..4] == "img"; }
    assert SkipSpaces(s, 4) == 5 by { assert s[4] == ' ' && s[5] == 's'; }
    assert AtCi(s, 5, "src") by { assert s[5..8] == "src"; }
    assert FirstOf(s, 8, {'='}) == 8 by { assert s[8] == '='; }
    var end := |s| - 1;
    assert s[9..end] == q;
    assert FirstOf(s, 9, {'<', '>'}) == end by {
      assert forall k | 9 <= k < end :: s[k] == q[k - 9];
      assert s[end] == '>';
    }
    assert MatchAt(s, 1) == Some(ImgMatch(end, q));
    assert !AtCi(s, end, "img");
    assert Sources(s, end) == Sources(s, |s|);
  }

  /** The content of a single tag is invalid exactly when its quoted url is
      neither a screenshot nor a formula. */
  lemma SingleImgTagVerdict(url: string)
    requires '<' !in url && '>' !in url
    ensures ContainsInvalidImgTags("<img src=\"" + url + "\">") <==> !IsValidSource("\"" + url + "\"")
  {
    SingleImgTag(url);
  }

  /** A quoted url without quotes inside is a screenshot exactly when the
      url is `/screenshot/` and a UUID, nothing before or after. */
  lemma QuotedScreenshot(url: string)
    requires '"' !in url
    ensures IsScreenshotSource("\"" + url + "\"") <==>
              |url| == 48 && AtCi(url, 0, "/screenshot/") && IsUuid(url[12..])
  {
    var q := "\"" + url + "\"";
    var w := "\"/screenshot/";
    assert w[1..] == "/screenshot/" && w[0] == '"';
    assert forall k | 1 <= k <= |url| :: q[k] == url[k - 1];
    if IsScreenshotSource(q) {
      assert |q| == 50;
      assert url[12..] == q[13..49];
      forall k | 0 <= k < 12 ensures ToLower(url[k]) == "/screenshot/"[k] {
        assert url[k] == q[k + 1] && w[k + 1] == "/screenshot/"[k];
      }
    }
    if |url| == 48 && AtCi(url, 0, "/screenshot/") && IsUuid(url[12..]) {
      assert q[13..49] == url[12..];
      forall k | 0 <= k < 13 ensures ToLower(q[k]) == w[k] {
        if k > 0 { assert q[k] == url[k - 1] && w[k] == "/screenshot/"[k - 1]; }
      }
    }
  }

  /** A character outside the Basic Multilingual Plane after `/math` is
      two code units, which the one `.` cannot cover: such a url is not a
      formula. */
  lemma AstralCharIsNotDot()
    ensures !IsMathSource("\"/math\U{1F600}svg?latex\"")
  {
    var url := "/math\U{1F600}svg?latex";
    assert "\"" + url + "\"" == "\"/math\U{1F600}svg?latex\"";
    assert url[5] == '\U{1F600}' && !MatchesDot(url[5]);
    assert forall k | 0 <= k < |url| :: url[k] != '"';
    QuotedMath(url);
  }

  /** A quoted url without quotes inside is a formula exactly when the url
      starts with `/math`, one character that `.` matches, and `svg?latex`. */
  lemma QuotedMath(url: string)
    requires '"' !in url
    ensures IsMathSource("\"" + url + "\"") <==>
              |url| >= 15 && url[..5] == "/math" && MatchesDot(url[5]) && url[6..15] == "svg?latex"
  {
    var q := "\"" + url + "\"";
    assert forall k | 1 <= k <= |url| :: q[k] == url[k - 1];
    if IsMathSource(q) {
      var i :| 0 <= i <= |q| && MathAt(q, i);
      assert q[i] == '"';
      assert i == 0;
      assert q[15] == 'x' by { assert q[7..16][8] == q[15]; }
      assert q[|q| - 1] == '"';
      assert |url| >= 15;
      assert url[..5] == q[1..6];
      assert url[6..15] == q[7..16];
    }
    if |url| >= 15 && url[..5] == "/math" && MatchesDot(url[5]) && url[6..15] == "svg?latex" {
      assert q[1..6] == url[..5];
      assert q[7..16] == url[6..15];
      assert MathAt(q, 0);
    }
  }
}
