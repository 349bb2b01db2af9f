/** The few string operations the downloaders apply to file names. */
module Text {

  /** `s.endswith(suffix)` */
  predicate EndsWith(s: string, suffix: string) {
    |suffix| <= |s| && s[|s| - |suffix|..] == suffix
  }

  /** `sub in s` */
  predicate HasSubstring(s: string, sub: string)
    decreases |s|
  {
    |sub| <= |s| && (s[..|sub|] == sub || HasSubstring(s[1..], sub))
  }

  /** A text without the first character of `sub` does not contain `sub`. */
  lemma {:induction false} MissingFirstChar(s: string, sub: string)
    requires sub != [] && sub[0] !in s
    ensures !HasSubstring(s, sub)
    decreases |s|
  {
    if |sub| <= |s| {
      assert s[..|sub|][0] == s[0];
      MissingFirstChar(s[1..], sub);
    }
  }

  function LowerChar(c: char): char {
    if 'A' <= c <= 'Z' then (c as int - 'A' as int + 'a' as int) as char else c
  }

  /** `s.lower()` on ASCII letters; other characters are kept. */
  function Lower(s: string): (r: string)
    ensures |r| == |s|
    ensures forall i :: 0 <= i < |s| ==> r[i] == LowerChar(s[i])
  {
    seq(|s|, i requires 0 <= i < |s| => LowerChar(s[i]))
  }

  /** `s.rsplit(".", 1)[-1]`: the text after the last dot, or all of `s` when it has none. */
  function AfterLastDot(s: string): (r: string)
    ensures |r| <= |s| && r == s[|s| - |r|..]
    ensures '.' !in r
    ensures |r| < |s| ==> s[|s| - |r| - 1] == '.'
  {
    if s == [] then []
    else if s[|s| - 1] == '.' then []
    else
      var init := s[..|s| - 1];
      var r := AfterLastDot(init) + [s[|s| - 1]];
      assert init[|init| - |r| + 1..] + [s[|s| - 1]] == s[|s| - |r|..];
      r
  }

  /** A text without a dot is its own text after the last dot. */
  lemma NoDotWhole(s: string)
    requires '.' !in s
    ensures AfterLastDot(s) == s
  {
    assert s[0..] == s;
  }

  /** With a dot at `k` and none after it, the text after the last dot starts at `k + 1`. */
  lemma {:induction false} AfterDotAt(s: string, k: nat)
    requires k < |s| && s[k] == '.' && '.' !in s[k + 1..]
    ensures AfterLastDot(s) == s[k + 1..]
    decreases |s|
  {
    if k < |s| - 1 {
      var init := s[..|s| - 1];
      assert s[|s| - 1] == s[k + 1..][|s| - k - 2];
      assert init[k + 1..] == s[k + 1..|s| - 1];
      AfterDotAt(init, k);
      assert s[k + 1..] == init[k + 1..] + [s[|s| - 1]];
    }
  }

  /**
   * For an extension without dots, `name.endswith("." + ext)` holds exactly when the name
   * has a dot and its text after the last dot is `ext`.
   */
  lemma EndsWithDotExt(name: string, ext: string)
    requires '.' !in ext
    ensures EndsWith(name, "." + ext) <==> ('.' in name && AfterLastDot(name) == ext)
  {
    if EndsWith(name, "." + ext) {
      DotExtSuffix(name, ext);
    }
    if '.' in name && AfterLastDot(name) == ext {
      SuffixDotExt(name, ext);
    }
  }

  lemma DotExtSuffix(name: string, ext: string)
    requires '.' !in ext && EndsWith(name, "." + ext)
    ensures '.' in name && AfterLastDot(name) == ext
  {
    var k := |name| - |ext| - 1;
    assert name[k..] == "." + ext;
    assert name[k] == '.';
    assert name[k + 1..] == name[k..][1..] == ext;
    AfterDotAt(name, k);
  }

  lemma SuffixDotExt(name: string, ext: string)
    requires '.' in name && AfterLastDot(name) == ext
    ensures EndsWith(name, "." + ext)
  {
    DotBeforeSuffix(name);
    var k := |name| - |ext| - 1;
    assert 0 <= k && name[k] == '.';
    assert name[k + 1..] == ext;
    assert name[k..] == [name[k]] + name[k + 1..] == "." + ext;
  }

  /** A name with a dot keeps at least that dot before the text after its last dot. */
  lemma {:induction false} DotBeforeSuffix(s: string)
    requires '.' in s
    ensures |AfterLastDot(s)| < |s|
    decreases |s|
  {
    if s[|s| - 1] != '.' {
      var init := s[..|s| - 1];
      assert s == init + [s[|s| - 1]];
      assert '.' in init;
      DotBeforeSuffix(init);
    }
  }
}
