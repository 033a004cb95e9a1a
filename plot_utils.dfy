/** File names for saved figures: a part is sanitised (stripped of surrounding
    whitespace, spaces turned into underscores, every character other than an
    ASCII letter, a digit, '-', '_' or '.' deleted, cut to a maximum length)
    and the base name joins two sanitised parts and a timestamp. */
module PlotUtils {
  import opened Tables

  const DEFAULT_MAX_LEN := 150
  const UNNAMED := "unnamed"

  /** Python's str.isspace: the characters that str.strip() removes. */
  predicate IsSpace(c: char) {
    || '\t' <= c <= '\r'
    || '\U{1C}' <= c <= '\U{1F}'
    || c == ' '
    || c == '\U{85}' || c == '\U{A0}' || c == '\U{1680}'
    || '\U{2000}' <= c <= '\U{200A}'
    || c == '\U{2028}' || c == '\U{2029}' || c == '\U{202F}' || c == '\U{205F}' || c == '\U{3000}'
  }

  /** The characters a file name may keep: [0-9A-Za-z-_.]. */
  predicate AllowedChar(c: char) {
    || '0' <= c <= '9'
    || 'A' <= c <= 'Z'
    || 'a' <= c <= 'z'
    || c == '-' || c == '_' || c == '.'
  }

  predicate AllAllowed(s: string) {
    forall i :: 0 <= i < |s| ==> AllowedChar(s[i])
  }

  // ---- The steps of sanitising ----

  function StripLeft(s: string): string {
    if s != [] && IsSpace(s[0]) then StripLeft(s[1..]) else s
  }

  function StripRight(s: string): string {
    if s != [] && IsSpace(s[|s| - 1]) then StripRight(s[..|s| - 1]) else s
  }

  /** `s` without leading and trailing whitespace. */
  function Strip(s: string): string {
    StripRight(StripLeft(s))
  }

  /** `s` with every space replaced by an underscore: no space is left, and
      the only characters that change are spaces, each into an underscore. */
  function ReplaceSpaces(s: string): (r: string)
    ensures |r| == |s|
    ensures ' ' !in r
    ensures forall i :: 0 <= i < |s| && r[i] != s[i] ==> s[i] == ' ' && r[i] == '_'
  {
    seq(|s|, i requires 0 <= i < |s| => if s[i] == ' ' then '_' else s[i])
  }

  /** The allowed characters of `s`, in order: what deleting every match of
      the pattern [^0-9A-Za-z\-_\.] leaves. */
  function KeepAllowed(s: string): (r: string)
    ensures AllAllowed(r)
    ensures |r| <= |s|
    ensures AllAllowed(s) ==> r == s
  {
    if s == [] then []
    else if AllowedChar(s[0]) then [s[0]] + KeepAllowed(s[1..])
    else KeepAllowed(s[1..])
  }

  /** Python's s[:stop]: the first `stop` characters, or for a negative `stop`
      all but the last -stop characters. */
  function SlicePrefix(s: string, stop: int): (r: string)
    ensures stop >= 0 ==> |r| == Min(stop, |s|)
    ensures stop < 0 ==> |r| == Max(0, |s| + stop)
    ensures r == s[..|r|]
  {
    if stop >= 0 then s[..Min(stop, |s|)] else s[..Max(0, |s| + stop)]
  }

  /** The sanitised form of one part of a file name. An empty part becomes
      "unnamed"; the emptiness test comes before stripping, so a part made
      only of whitespace becomes "". */
  function Sanitize(s: string, maxLen: int): (r: string)
    ensures s == "" ==> r == UNNAMED
    ensures AllAllowed(r)
    ensures s != "" && 0 <= maxLen ==> |r| <= maxLen
  {
    if s == "" then UNNAMED
    else SlicePrefix(KeepAllowed(ReplaceSpaces(Strip(s))), maxLen)
  }

  /** The base name of a saved figure: the sanitised notebook name, the
      sanitised title and the timestamp, joined by underscores. */
  function MakeBasename(notebookName: string, title: string, ts: string): string {
    Sanitize(notebookName, DEFAULT_MAX_LEN) + "_" + Sanitize(title, DEFAULT_MAX_LEN) + "_" + ts
  }

  // ---- Properties ----

  /** Strip removes a run of whitespace at each end and nothing else. */
  lemma {:induction false} StripCorrect(s: string)
    ensures exists i, j :: (0 <= i <= j <= |s| && Strip(s) == s[i..j]
      && (forall k :: 0 <= k < i ==> IsSpace(s[k]))
      && (forall k :: j <= k < |s| ==> IsSpace(s[k])))
    ensures Strip(s) != [] ==> !IsSpace(Strip(s)[0]) && !IsSpace(Strip(s)[|Strip(s)| - 1])
  {
    var i := StripLeftCorrect(s);
    var t := StripLeft(s);
    var j := StripRightCorrect(t);
    assert Strip(s) == s[i..i + j];
    assert forall k :: i + j <= k < |s| ==> s[k] == t[k - i];
  }

  lemma {:induction false} StripLeftCorrect(s: string) returns (i: nat)
    ensures i <= |s| && StripLeft(s) == s[i..]
    ensures forall k :: 0 <= k < i ==> IsSpace(s[k])
    ensures StripLeft(s) != [] ==> !IsSpace(StripLeft(s)[0])
  {
    if s != [] && IsSpace(s[0]) {
      var i' := StripLeftCorrect(s[1..]);
      i := i' + 1;
      assert s[1..][i'..] == s[i..];
    } else {
      i := 0;
    }
  }

  lemma {:induction false} StripRightCorrect(s: string) returns (j: nat)
    ensures j <= |s| && StripRight(s) == s[..j]
    ensures forall k :: j <= k < |s| ==> IsSpace(s[k])
    ensures StripRight(s) != [] ==> !IsSpace(StripRight(s)[|StripRight(s)| - 1])
  {
    if s != [] && IsSpace(s[|s| - 1]) {
      var init := s[..|s| - 1];
      j := StripRightCorrect(init);
      assert init[..j] == s[..j];
    } else {
      j := |s|;
    }
  }

  /** Deleting the disallowed characters of a concatenation deletes them from each part. */
  lemma {:induction false} KeepAllowedAppend(a: string, b: string)
    ensures KeepAllowed(a + b) == KeepAllowed(a) + KeepAllowed(b)
  {
    if a != [] {
      KeepAllowedAppend(a[1..], b);
      assert (a + b)[1..] == a[1..] + b;
    } else {
      assert a + b == b;
    }
  }

  /** An allowed character survives deletion, in place among the others. */
  lemma KeepAllowedKeepsOrder(a: string, c: char, b: string)
    requires AllowedChar(c)
    ensures KeepAllowed(a + [c] + b) == KeepAllowed(a) + [c] + KeepAllowed(b)
  {
    KeepAllowedAppend(a + [c], b);
    KeepAllowedAppend(a, [c]);
  }

  /** A disallowed character is deleted: what is kept on either side closes up. */
  lemma KeepAllowedDropsDisallowed(a: string, c: char, b: string)
    requires !AllowedChar(c)
    ensures KeepAllowed(a + [c] + b) == KeepAllowed(a) + KeepAllowed(b)
  {
    KeepAllowedAppend(a + [c], b);
    KeepAllowedAppend(a, [c]);
  }

  /** A non-empty part is sanitised to a prefix, of length min(maxLen, ...) when
      maxLen is not negative, of its stripped, space-replaced text with the
      disallowed characters deleted. */
  lemma SanitizePrefix(s: string, maxLen: int)
    requires s != ""
    ensures var kept := KeepAllowed(ReplaceSpaces(Strip(s)));
      && Sanitize(s, maxLen) == kept[..|Sanitize(s, maxLen)|]
      && (0 <= maxLen ==> |Sanitize(s, maxLen)| == Min(maxLen, |kept|))
  {
  }

  /** A non-empty part made only of whitespace is sanitised to "", not "unnamed". */
  lemma {:induction false} SanitizeWhitespaceOnly(s: string, maxLen: int)
    requires s != ""
    requires forall i :: 0 <= i < |s| ==> IsSpace(s[i])
    ensures Sanitize(s, maxLen) == ""
  {
    StripCorrect(s);
  }

  /** Sanitising a non-empty sanitised part again with the same non-negative
      maximum length returns it unchanged. */
  lemma SanitizeIdempotent(s: string, maxLen: int)
    requires 0 <= maxLen
    requires Sanitize(s, maxLen) != ""
    requires s != "" || |UNNAMED| <= maxLen
    ensures Sanitize(Sanitize(s, maxLen), maxLen) == Sanitize(s, maxLen)
  {
    var r := Sanitize(s, maxLen);
    NoSpaceStripsToItself(r);
    assert ReplaceSpaces(r) == r;
  }

  /** A text of allowed characters has no whitespace, so stripping keeps it. */
  lemma NoSpaceStripsToItself(r: string)
    requires AllAllowed(r)
    ensures Strip(r) == r
  {
    if r != [] {
      assert !IsSpace(r[0]) && !IsSpace(r[|r| - 1]);
    }
  }

  /** An interior space becomes an underscore rather than being deleted. */
  lemma SanitizeSpaceExample()
    ensures Sanitize("a b", DEFAULT_MAX_LEN) == "a_b"
  {
    assert Strip("a b") == "a b";
    assert ReplaceSpaces("a b") == "a_b";
    assert KeepAllowed("a_b") == "a_b";
  }

  /** Surrounding spaces go, interior ones become underscores, '/' and ':' are deleted. */
  lemma SanitizeMixedExample()
    ensures Sanitize(" a/b: c ", DEFAULT_MAX_LEN) == "ab_c"
  {
    MixedStrip();
    assert ReplaceSpaces("a/b: c") == "a/b:_c";
    MixedKeepAllowed();
  }

  lemma MixedStrip()
    ensures Strip(" a/b: c ") == "a/b: c"
  {
    var t := " a/b: c ";
    assert StripLeft(t[1..]) == t[1..];
    assert StripLeft(t) == "a/b: c ";
    var u := t[1..];
    assert StripRight(u[..|u| - 1]) == u[..|u| - 1];
  }

  lemma MixedKeepAllowed()
    ensures KeepAllowed("a/b:_c") == "ab_c"
  {
    var s := "a/b:_c";
    assert s[1..] == "/b:_c" && s[2..] == "b:_c" && s[3..] == ":_c" && s[4..] == "_c";
    assert KeepAllowed(s[4..]) == "_c";
    assert KeepAllowed(s[3..]) == "_c";
    assert KeepAllowed(s[2..]) == "b_c";
    assert KeepAllowed(s[1..]) == "b_c";
    assert KeepAllowed(s) == [s[0]] + KeepAllowed(s[1..]);
    assert [s[0]] + "b_c" == "ab_c";
  }

  /** A negative maximum length cuts from the end, as a Python slice does. */
  lemma SanitizeNegativeMaxLenExample()
    ensures Sanitize("abcd", -1) == "abc"
  {
    assert Strip("abcd") == "abcd";
    assert ReplaceSpaces("abcd") == "abcd";
    assert KeepAllowed("abcd") == "abcd";
  }

  /** The base name: the sanitised notebook name and title come first, each
      followed by an underscore, and the timestamp ends it verbatim (it is not
      sanitised); all before the timestamp is made of allowed characters. */
  lemma BasenameShape(notebookName: string, title: string, ts: string)
    ensures var r := MakeBasename(notebookName, title, ts);
      var nb := Sanitize(notebookName, DEFAULT_MAX_LEN);
      var ttl := Sanitize(title, DEFAULT_MAX_LEN);
      && |r| == |nb| + |ttl| + |ts| + 2
      && r[..|nb|] == nb && r[|nb|] == '_'
      && r[|nb| + 1..|nb| + 1 + |ttl|] == ttl && r[|nb| + 1 + |ttl|] == '_'
      && r[|r| - |ts|..] == ts
      && AllAllowed(r[..|r| - |ts|])
      && |r| <= 2 * DEFAULT_MAX_LEN + 2 + |ts|
  {
    var nb := Sanitize(notebookName, DEFAULT_MAX_LEN);
    var ttl := Sanitize(title, DEFAULT_MAX_LEN);
    var r := MakeBasename(notebookName, title, ts);
    assert r[..|r| - |ts|] == nb + "_" + ttl + "_";
  }
}
