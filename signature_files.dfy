/**
 * Which archive entries count as signature files when META-INF is cleared:
 * the paths the pattern `^META-INF/.+\.(([MS]F)|(RSA))` matches as a whole,
 * and the source-stamp certificate `stamp-cert-sha256`.
 *
 * The pattern is read with java.util.regex rules: `.` is any character but
 * a line terminator, and the whole path must match.
 */
module SignatureFiles {

  const META_INF: string := "META-INF/"
  const STAMP_CERT: string := "stamp-cert-sha256"
  const SIGNATURE_EXTENSIONS: seq<string> := ["MF", "SF", "RSA"]

  /** The characters java.util.regex refuses to match with `.`. */
  predicate IsLineTerminator(c: char)
  {
    c == '\n' || c == '\r' || c == '\U{0085}' || c == '\U{2028}' || c == '\U{2029}'
  }

  /** A run of characters `.+` (or `.*`) can consume. */
  predicate DotMatches(s: string)
  {
    forall i :: 0 <= i < |s| ==> !IsLineTerminator(s[i])
  }

  /**
   * The pattern read as a grammar: the path is META-INF/, then one or more
   * characters, then a dot and one of the three extensions.
   */
  predicate PatternSplit(p: string, mid: string, ext: string)
  {
    ext in SIGNATURE_EXTENSIONS && |mid| > 0 && DotMatches(mid) && p == META_INF + mid + "." + ext
  }

  /** The path ends in "." + ext with at least one matchable character after META-INF/. */
  predicate EndsWithExtension(p: string, ext: string)
  {
    && |p| >= |META_INF| + 1 + 1 + |ext|
    && p[|p| - |ext| - 1..] == "." + ext
    && DotMatches(p[|META_INF|..|p| - |ext| - 1])
  }

  /** The check the model uses for `removeIf(pattern)`. */
  predicate MatchesSignaturePattern(p: string)
    ensures MatchesSignaturePattern(p) ==> |p| >= |META_INF| + 4 && p[..|META_INF|] == META_INF
  {
    && |p| >= |META_INF|
    && p[..|META_INF|] == META_INF
    && (EndsWithExtension(p, "MF") || EndsWithExtension(p, "SF") || EndsWithExtension(p, "RSA"))
  }

  /** The entries clearMeta drops. */
  predicate IsSignatureEntry(p: string)
  {
    MatchesSignaturePattern(p) || p == STAMP_CERT
  }

  lemma PatternSplitMatches(p: string, mid: string, ext: string)
    requires PatternSplit(p, mid, ext)
    ensures MatchesSignaturePattern(p)
  {
    assert p[..|META_INF|] == META_INF;
    assert p[|p| - |ext| - 1..] == "." + ext;
    assert p[|META_INF|..|p| - |ext| - 1] == mid;
  }

  lemma MatchesHasSplit(p: string) returns (mid: string, ext: string)
    requires MatchesSignaturePattern(p)
    ensures PatternSplit(p, mid, ext)
  {
    ext := if EndsWithExtension(p, "MF") then "MF"
           else if EndsWithExtension(p, "SF") then "SF" else "RSA";
    mid := p[|META_INF|..|p| - |ext| - 1];
    assert p == p[..|META_INF|] + mid + p[|p| - |ext| - 1..];
  }

  /** The check agrees with the pattern read as a grammar, in both directions. */
  lemma MatchesSignaturePatternIff(p: string)
    ensures MatchesSignaturePattern(p) <==> exists mid, ext :: PatternSplit(p, mid, ext)
  {
    if MatchesSignaturePattern(p) {
      var mid, ext := MatchesHasSplit(p);
    }
    if exists mid, ext :: PatternSplit(p, mid, ext) {
      var mid, ext :| PatternSplit(p, mid, ext);
      PatternSplitMatches(p, mid, ext);
    }
  }

  /**
   * The v1 signature of a signed APK (MANIFEST.MF, CERT.SF, CERT.RSA under
   * any name, in META-INF or any of its sub-directories) is dropped.
   */
  lemma V1SignatureFilesMatch(name: string)
    requires |name| > 0 && DotMatches(name)
    ensures IsSignatureEntry(META_INF + name + ".MF")
    ensures IsSignatureEntry(META_INF + name + ".SF")
    ensures IsSignatureEntry(META_INF + name + ".RSA")
  {
    forall ext | ext in SIGNATURE_EXTENSIONS ensures MatchesSignaturePattern(META_INF + name + ("." + ext)) {
      assert META_INF + name + ("." + ext) == META_INF + name + "." + ext;
      PatternSplitMatches(META_INF + name + "." + ext, name, ext);
    }
    assert "." + "MF" == ".MF" && "." + "SF" == ".SF" && "." + "RSA" == ".RSA";
  }

  /** A path whose k-th character before the extension differs cannot end with it. */
  lemma ExtensionMismatch(p: string, ext: string, k: nat)
    requires k < |ext| + 1 <= |p|
    requires p[|p| - |ext| - 1 + k] != ("." + ext)[k]
    ensures !EndsWithExtension(p, ext)
  {
    if |p| >= |META_INF| + 1 + 1 + |ext| {
      assert p[|p| - |ext| - 1..][k] == p[|p| - |ext| - 1 + k];
    }
  }

  /** DSA and EC signature blocks are not covered by the pattern and stay. */
  lemma DsaAndEcBlocksKept()
    ensures !IsSignatureEntry("META-INF/CERT.DSA")
    ensures !IsSignatureEntry("META-INF/CERT.EC")
  {
    ExtensionMismatch("META-INF/CERT.DSA", "MF", 1);
    ExtensionMismatch("META-INF/CERT.DSA", "SF", 2);
    ExtensionMismatch("META-INF/CERT.DSA", "RSA", 1);
    ExtensionMismatch("META-INF/CERT.EC", "MF", 1);
    ExtensionMismatch("META-INF/CERT.EC", "SF", 1);
    ExtensionMismatch("META-INF/CERT.EC", "RSA", 1);
  }

  /** `.+` needs a character before the extension, and the match is anchored at the end. */
  lemma EmptyStemAndSuffixKept()
    ensures !IsSignatureEntry("META-INF/.SF")
    ensures !IsSignatureEntry("META-INF/CERT.SF.bak")
  {
    ExtensionMismatch("META-INF/CERT.SF.bak", "MF", 0);
    ExtensionMismatch("META-INF/CERT.SF.bak", "SF", 0);
    ExtensionMismatch("META-INF/CERT.SF.bak", "RSA", 1);
  }

}
