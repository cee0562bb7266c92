/**
 * `sanitize_filename` of backend/main.py: the title of a video made safe for the
 * `Content-Disposition` header of a download. Three steps, in this order:
 * delete every character of the class `\ / * ? : " < > |`, strip whitespace at
 * both ends, and keep at most the first 100 characters.
 */
module Filename {

  /** The length the name is cut to (`[:100]`). */
  const MaxLength: nat := 100

  /** The characters of the regular-expression class, backslash through bar. */
  const Forbidden: set<char> := {'\\', '/', '*', '?', ':', '"', '<', '>', '|'}

  /**
   * What Python's `str.strip()` with no argument removes: the characters for which `str.isspace()`
   * holds (the control characters TAB to CR and FS to US, SPACE, NEL, NO-BREAK
   * SPACE, OGHAM SPACE MARK, the spaces U+2000 to U+200A, the line and paragraph
   * separators, NARROW NO-BREAK SPACE, MEDIUM MATHEMATICAL SPACE and IDEOGRAPHIC
   * SPACE).
   */
  const Whitespace: set<char> := {
    '\t', '\n', '\U{B}', '\U{C}', '\r', '\U{1C}', '\U{1D}', '\U{1E}', '\U{1F}', ' ',
    '\U{85}', '\U{A0}', '\U{1680}',
    '\U{2000}', '\U{2001}', '\U{2002}', '\U{2003}', '\U{2004}', '\U{2005}',
    '\U{2006}', '\U{2007}', '\U{2008}', '\U{2009}', '\U{200A}',
    '\U{2028}', '\U{2029}', '\U{202F}', '\U{205F}', '\U{3000}'
  }

  predicate NoForbidden(s: string) {
    forall i :: 0 <= i < |s| ==> s[i] !in Forbidden
  }

  /** Neither the first nor the last character of `s` is one of `chars`. */
  predicate Trimmed(s: string, chars: set<char>) {
    s == [] || (s[0] !in chars && s[|s| - 1] !in chars)
  }

  // ---------- Step 1: re.sub with the forbidden class and "" ----------

  /** Deletes every forbidden character and keeps the others in order. */
  function RemoveForbidden(s: string): (r: string)
    ensures |r| <= |s|
    ensures NoForbidden(r)
    ensures forall c :: c !in Forbidden ==> multiset(r)[c] == multiset(s)[c]
    ensures forall c :: c in Forbidden ==> multiset(r)[c] == 0
  {
    if s == [] then []
    else
      assert s == [s[0]] + s[1..];
      if s[0] in Forbidden then RemoveForbidden(s[1..])
      else [s[0]] + RemoveForbidden(s[1..])
  }

  // ---------- Step 2: .strip() ----------
  // Stated for any set of characters to strip, as `str.strip(chars)` is;
  // `sanitize_filename` strips `Whitespace`.

  /** How many characters of `chars` `s` starts with: where `str.strip` starts the slice it keeps. */
  function LeadingCount(s: string, chars: set<char>): (n: nat)
    ensures n <= |s|
    ensures forall i :: 0 <= i < n ==> s[i] in chars
    ensures n == |s| || s[n] !in chars
  {
    if |s| > 0 && s[0] in chars then
      var n := 1 + LeadingCount(s[1..], chars);
      assert forall i :: 1 <= i < n ==> s[i] == s[1..][i - 1];
      n
    else 0
  }

  /** How many characters of `chars` `s` ends with. */
  function TrailingCount(s: string, chars: set<char>): (n: nat)
    ensures n <= |s|
    ensures forall i :: |s| - n <= i < |s| ==> s[i] in chars
    ensures n == |s| || s[|s| - n - 1] !in chars
  {
    if |s| > 0 && s[|s| - 1] in chars then
      var n := 1 + TrailingCount(s[..|s| - 1], chars);
      assert forall i :: |s| - n <= i < |s| - 1 ==> s[i] == s[..|s| - 1][i];
      n
    else 0
  }

  /**
   * `str.strip(chars)`: the characters of `chars` removed at both ends; what is
   * kept is the slice of `s` that starts after the leading ones.
   */
  function Strip(s: string, chars: set<char>): (r: string)
    ensures Trimmed(r, chars)
    ensures LeadingCount(s, chars) + |r| <= |s|
    ensures r == s[LeadingCount(s, chars)..LeadingCount(s, chars) + |r|]
  {
    var lo := LeadingCount(s, chars);
    var hi := lo + (|s| - lo - TrailingCount(s[lo..], chars));
    assert s[lo..][..hi - lo] == s[lo..hi];
    s[lo..hi]
  }

  /** Everything `Strip` drops, before and after the slice it keeps, is one of `chars`. */
  lemma StripDropsOnly(s: string, chars: set<char>, i: int)
    requires 0 <= i < |s|
    requires var lo := LeadingCount(s, chars);
             i < lo || lo + |Strip(s, chars)| <= i
    ensures s[i] in chars
  {
    var lo := LeadingCount(s, chars);
    var rest := s[lo..];
    if lo <= i {
      assert |Strip(s, chars)| == |rest| - TrailingCount(rest, chars);
      assert s[i] == rest[i - lo];
    }
  }

  /** `Strip` leaves a string unchanged exactly when it is already trimmed. */
  lemma StripUnchangedIff(s: string, chars: set<char>)
    ensures Strip(s, chars) == s <==> Trimmed(s, chars)
  {
    if Trimmed(s, chars) && s != [] {
      assert LeadingCount(s, chars) == 0;
      assert s[0..] == s;
      assert TrailingCount(s, chars) == 0;
    }
  }

  /** Stripping a trimmed non-empty string followed by one stripped character gives it back. */
  lemma StripDropsLastChar(stem: string, chars: set<char>, c: char)
    requires stem != [] && Trimmed(stem, chars) && c in chars
    ensures Strip(stem + [c], chars) == stem
  {
    var once := stem + [c];
    assert once[0] == stem[0];
    assert LeadingCount(once, chars) == 0;
    assert once[0..] == once && once[..|once| - 1] == stem;
    assert TrailingCount(stem, chars) == 0;
    assert TrailingCount(once, chars) == 1;
  }

  // ---------- Step 3: [:100] ----------

  /** Python's slice `s[:n]`, which is the whole of `s` when it is shorter. */
  function Prefix(s: string, n: nat): (r: string)
    ensures |r| == if |s| <= n then |s| else n
    ensures r == s[..|r|]
  {
    if |s| <= n then s else s[..n]
  }

  // ---------- sanitize_filename ----------

  function SanitizeFilename(name: string): (r: string)
    ensures NoForbidden(r)
    ensures |r| <= MaxLength
    ensures r == [] || r[0] !in Whitespace
    ensures var cleaned := Strip(RemoveForbidden(name), Whitespace);
            |r| <= |cleaned| && r == cleaned[..|r|] && (|r| == MaxLength || r == cleaned)
  {
    Prefix(Strip(RemoveForbidden(name), Whitespace), MaxLength)
  }

  // ---------- Properties ----------

  /** A name the sanitizer leaves alone: nothing forbidden, trimmed, short enough. */
  predicate IsClean(name: string) {
    NoForbidden(name) && Trimmed(name, Whitespace) && |name| <= MaxLength
  }

  /** Removing forbidden characters from a string that has none changes nothing. */
  lemma {:induction false} RemoveForbiddenNone(s: string)
    requires NoForbidden(s)
    ensures RemoveForbidden(s) == s
  {
    if s != [] {
      RemoveForbiddenNone(s[1..]);
    }
  }

  /** The removal works character by character: it distributes over concatenation. */
  lemma {:induction false} RemoveForbiddenConcat(a: string, b: string)
    ensures RemoveForbidden(a + b) == RemoveForbidden(a) + RemoveForbidden(b)
  {
    if a == [] {
      assert a + b == b;
    } else {
      assert (a + b)[0] == a[0] && (a + b)[1..] == a[1..] + b;
      RemoveForbiddenConcat(a[1..], b);
    }
  }

  /** A slice holds no more of any character than the whole string. */
  lemma SliceMultiset(t: string, s: string, lo: nat)
    requires lo + |t| <= |s| && t == s[lo..lo + |t|]
    ensures multiset(t) <= multiset(s)
  {
    assert s == s[..lo] + t + s[lo + |t|..];
  }

  /** Removing forbidden characters keeps at most as many of each character. */
  lemma RemoveForbiddenSubMultiset(s: string)
    ensures multiset(RemoveForbidden(s)) <= multiset(s)
  {
    var r := RemoveForbidden(s);
    forall c
      ensures multiset(r)[c] <= multiset(s)[c]
    {
      if c in Forbidden {
        assert multiset(r)[c] == 0;
      }
    }
  }

  /** Stripping keeps at most as many of each character. */
  lemma StripSubMultiset(s: string, chars: set<char>)
    ensures multiset(Strip(s, chars)) <= multiset(s)
  {
    SliceMultiset(Strip(s, chars), s, LeadingCount(s, chars));
  }

  /** The sanitizer only deletes: it never adds a character or repeats one. */
  lemma SanitizeOnlyDeletes(name: string)
    ensures multiset(SanitizeFilename(name)) <= multiset(name)
  {
    var removed := RemoveForbidden(name);
    var cleaned := Strip(removed, Whitespace);
    RemoveForbiddenSubMultiset(name);
    StripSubMultiset(removed, Whitespace);
    SliceMultiset(SanitizeFilename(name), cleaned, 0);
  }

  /**
   * The sanitizer returns a name unchanged exactly when the name has no
   * forbidden character, no whitespace at either end and at most 100 characters.
   */
  lemma SanitizeUnchangedIff(name: string)
    ensures SanitizeFilename(name) == name <==> IsClean(name)
  {
    if IsClean(name) {
      RemoveForbiddenNone(name);
      StripUnchangedIff(name, Whitespace);
    }
    if SanitizeFilename(name) == name {
      RemoveForbiddenNone(name);
      assert Strip(name, Whitespace) == name;
    }
  }

  /**
   * Sanitizing a sanitized name changes it again exactly when the first pass
   * left whitespace at its end (the cut to 100 characters came after the strip).
   */
  lemma SanitizeTwiceIff(name: string)
    ensures var r := SanitizeFilename(name);
            SanitizeFilename(r) == r <==> Trimmed(r, Whitespace)
  {
    SanitizeUnchangedIff(SanitizeFilename(name));
  }

  /** A name with nothing to delete or strip is only cut to 100 characters. */
  lemma SanitizeCutsOnly(name: string)
    requires NoForbidden(name) && Trimmed(name, Whitespace)
    ensures SanitizeFilename(name) == Prefix(name, MaxLength)
  {
    RemoveForbiddenNone(name);
    StripUnchangedIff(name, Whitespace);
  }

  /**
   * The cut can expose whitespace: a clean, trimmed 99-character name followed
   * by a space and one letter comes out with a trailing space, because the cut
   * to 100 characters comes after the strip.
   */
  lemma CutExposesTrailingSpace(stem: string)
    requires |stem| == MaxLength - 1 && NoForbidden(stem) && Trimmed(stem, Whitespace)
    ensures SanitizeFilename(stem + " b") == stem + " "
  {
    var name := stem + " b";
    assert NoForbidden(name) by {
      assert forall i :: 0 <= i < |stem| ==> name[i] == stem[i];
    }
    assert name[0] == stem[0] && 'b' !in Whitespace;
    SanitizeCutsOnly(name);
    assert name[..MaxLength] == stem + " ";
  }

  /**
   * A second pass over such a result removes the trailing space, so the
   * sanitizer is not idempotent.
   */
  lemma SecondPassStripsTrailingSpace(stem: string)
    requires |stem| == MaxLength - 1 && NoForbidden(stem) && Trimmed(stem, Whitespace)
    ensures SanitizeFilename(stem + " ") == stem
  {
    var once := stem + " ";
    assert NoForbidden(once);
    RemoveForbiddenNone(once);
    StripDropsLastChar(stem, Whitespace, ' ');
  }
}
