/**
 * Resolution of the `extractNativeLibs` option to the tri-state applied to
 * the module: absent option, no call; "true"/"false" compared ignoring case;
 * "manifest" keeps what the manifest says (null without a manifest); any
 * other string clears the setting (null).
 */
module NativeLibs {
  import opened Wrappers
  import opened ManifestModel

  predicate IsLowerAsciiWord(w: string)
  {
    forall i :: 0 <= i < |w| ==> 'a' <= w[i] <= 'z'
  }

  /**
   * Kotlin's `equals(ignoreCase = true)` on one character against a
   * lower-case ASCII letter `k`: the same character, its upper-case form, or
   * one of the four non-ASCII characters that Java's per-character case
   * mapping identifies with an ASCII letter (dotted capital I and dotless
   * small i for 'i', long s for 's', the Kelvin sign for 'k').
   */
  predicate SameLetterIgnoringCase(c: char, k: char)
    requires 'a' <= k <= 'z'
  {
    || c == k
    || c as int == k as int - 32
    || (k == 'i' && (c == '\U{0130}' || c == '\U{0131}'))
    || (k == 's' && c == '\U{017F}')
    || (k == 'k' && c == '\U{212A}')
  }

  /** `keyword.equals(s, ignoreCase = true)` for a lower-case ASCII keyword. */
  predicate EqualsIgnoreCase(s: string, keyword: string)
    requires IsLowerAsciiWord(keyword)
    ensures s == keyword ==> EqualsIgnoreCase(s, keyword)
    ensures EqualsIgnoreCase(s, keyword) ==> |s| == |keyword|
  {
    |s| == |keyword| && forall i :: 0 <= i < |s| ==> SameLetterIgnoringCase(s[i], keyword[i])
  }

  /**
   * The value applyExtractNativeLibs passes to setExtractNativeLibs: None
   * when it makes no call, Some(v) when it calls with v (v None is null).
   */
  function ResolveExtractNativeLibs(option: Option<string>, manifest: Option<Manifest>): (r: Option<Option<bool>>)
    ensures r.None? <==> option.None?
  {
    match option
    case None => None
    case Some(s) =>
      Some(if EqualsIgnoreCase(s, "manifest") then
             (if manifest.Some? then manifest.value.extractNativeLibs else None)
           else if EqualsIgnoreCase(s, "true") then Some(true)
           else if EqualsIgnoreCase(s, "false") then Some(false)
           else None)
  }

  /** The three keywords exclude each other, so the order of the tests is immaterial. */
  lemma KeywordsExclusive(s: string)
    ensures !(EqualsIgnoreCase(s, "manifest") && EqualsIgnoreCase(s, "true"))
    ensures !(EqualsIgnoreCase(s, "manifest") && EqualsIgnoreCase(s, "false"))
    ensures !(EqualsIgnoreCase(s, "true") && EqualsIgnoreCase(s, "false"))
  {
  }

  /** The applied value for every present option, keyword by keyword. */
  lemma ResolveCases(s: string, manifest: Option<Manifest>)
    ensures EqualsIgnoreCase(s, "true") ==> ResolveExtractNativeLibs(Some(s), manifest) == Some(Some(true))
    ensures EqualsIgnoreCase(s, "false") ==> ResolveExtractNativeLibs(Some(s), manifest) == Some(Some(false))
    ensures EqualsIgnoreCase(s, "manifest") && manifest.Some? ==>
      ResolveExtractNativeLibs(Some(s), manifest) == Some(manifest.value.extractNativeLibs)
    ensures EqualsIgnoreCase(s, "manifest") && manifest.None? ==>
      ResolveExtractNativeLibs(Some(s), manifest) == Some(None)
    ensures !EqualsIgnoreCase(s, "manifest") && !EqualsIgnoreCase(s, "true") && !EqualsIgnoreCase(s, "false") ==>
      ResolveExtractNativeLibs(Some(s), manifest) == Some(None)
  {
    KeywordsExclusive(s);
  }

  /** ASCII upper-casing: what a caller typing the option in capitals changes. */
  function UpperAscii(s: string): (r: string)
    ensures |r| == |s|
    ensures forall i :: 0 <= i < |s| ==>
      r[i] == if 'a' <= s[i] <= 'z' then (s[i] as int - 32) as char else s[i]
  {
    seq(|s|, i requires 0 <= i < |s| => if 'a' <= s[i] <= 'z' then (s[i] as int - 32) as char else s[i])
  }

  /** Upper-casing the ASCII letters of an option never changes what is applied. */
  lemma ResolveIgnoresAsciiCase(s: string, manifest: Option<Manifest>)
    ensures ResolveExtractNativeLibs(Some(UpperAscii(s)), manifest) == ResolveExtractNativeLibs(Some(s), manifest)
  {
    UpperAsciiMatchesSame(s, "manifest");
    UpperAsciiMatchesSame(s, "true");
    UpperAsciiMatchesSame(s, "false");
  }

  lemma UpperAsciiMatchesSame(s: string, keyword: string)
    requires IsLowerAsciiWord(keyword)
    ensures EqualsIgnoreCase(UpperAscii(s), keyword) <==> EqualsIgnoreCase(s, keyword)
  {
    var u := UpperAscii(s);
    if |s| == |keyword| {
      forall i | 0 <= i < |s|
        ensures SameLetterIgnoringCase(u[i], keyword[i]) <==> SameLetterIgnoringCase(s[i], keyword[i])
      {
      }
    }
  }

  /** Java's case mapping lets a dotless i or a long s through. */
  lemma NonAsciiSpellingsAccepted(manifest: Option<Manifest>)
    ensures ResolveExtractNativeLibs(Some("MAN\U{0131}FEST"), manifest) ==
      Some(if manifest.Some? then manifest.value.extractNativeLibs else None)
    ensures ResolveExtractNativeLibs(Some("FAL\U{017F}E"), manifest) == Some(Some(false))
  {
    assert EqualsIgnoreCase("MAN\U{0131}FEST", "manifest");
    assert EqualsIgnoreCase("FAL\U{017F}E", "false");
  }

}
