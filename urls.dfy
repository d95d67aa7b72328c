/** The text tests the bot applies to a submission's URL and to direct
    messages: substring search, prefix test, ASCII lower-casing, replacement
    of every occurrence, the imgur mirror normalisation and the image
    extension filter. */
module Urls {

  /** t occurs in s starting at index i. */
  predicate OccursAt(s: string, t: string, i: nat)
  {
    i + |t| <= |s| && s[i..i + |t|] == t
  }

  /** Whether s begins with t (Python's str.startswith). */
  predicate StartsWith(s: string, t: string)
  {
    |t| <= |s| && s[..|t|] == t
  }

  /** Whether t is a substring of s (Python's `t in s`), by a left-to-right scan. */
  predicate Contains(s: string, t: string)
    ensures Contains(s, t) ==> |t| <= |s|
    ensures t == [] ==> Contains(s, t)
    decreases |s|
  {
    StartsWith(s, t) || (|s| > 0 && Contains(s[1..], t))
  }

  /** The scan finds t exactly when t occurs at some index of s. */
  lemma {:induction false} ContainsIffOccurs(s: string, t: string)
    ensures Contains(s, t) <==> exists i: nat :: OccursAt(s, t, i)
    decreases |s|
  {
    if StartsWith(s, t) {
      assert OccursAt(s, t, 0);
    } else if |s| > 0 {
      ContainsIffOccurs(s[1..], t);
      if Contains(s[1..], t) {
        var i: nat :| OccursAt(s[1..], t, i);
        assert s[i + 1..i + 1 + |t|] == s[1..][i..i + |t|];
        assert OccursAt(s, t, i + 1);
      } else {
        forall i: nat | OccursAt(s, t, i)
          ensures false
        {
          assert i != 0;
          TailSlice(s, i, |t|);
          assert OccursAt(s[1..], t, i - 1);
        }
      }
    }
  }

  /** A slice of s at i >= 1 is the slice of its tail one position earlier. */
  lemma TailSlice(s: string, i: nat, n: nat)
    requires 1 <= i && i + n <= |s|
    ensures s[1..][i - 1..i - 1 + n] == s[i..i + n]
  {
  }

  /** ASCII lower-casing of one character. */
  function LowerChar(c: char): char
  {
    if 'A' <= c <= 'Z' then (c as int + 32) as char else c
  }

  predicate IsUpper(c: char)
  {
    'A' <= c <= 'Z'
  }

  /** Lower-casing of a string (Python's str.lower on ASCII text). */
  function Lower(s: string): (r: string)
    ensures |r| == |s|
    ensures forall i :: 0 <= i < |s| ==> r[i] == LowerChar(s[i])
  {
    seq(|s|, i requires 0 <= i < |s| => LowerChar(s[i]))
  }

  /** The result of lower-casing has no upper-case letter, and lower-casing it
      again changes nothing. */
  lemma LowerIsLower(s: string)
    ensures forall i :: 0 <= i < |s| ==> !IsUpper(Lower(s)[i])
    ensures Lower(Lower(s)) == Lower(s)
  {
  }

  /** Lower-casing keeps every occurrence, lower-cased. */
  lemma LowerKeepsContains(s: string, t: string)
    requires Contains(s, t)
    ensures Contains(Lower(s), Lower(t))
  {
    ContainsIffOccurs(s, t);
    var i: nat :| OccursAt(s, t, i);
    assert Lower(s)[i..i + |t|] == Lower(t);
    assert OccursAt(Lower(s), Lower(t), i);
    ContainsIffOccurs(Lower(s), Lower(t));
  }

  /** Every non-overlapping occurrence of pat, scanning left to right,
      replaced by rep (Python's str.replace). A replacement text of the
      pattern's length keeps the length of the string; a longer one never
      shortens it and a shorter one never lengthens it. */
  function ReplaceAll(s: string, pat: string, rep: string): (r: string)
    requires |pat| > 0
    ensures |rep| == |pat| ==> |r| == |s|
    ensures |rep| >= |pat| ==> |r| >= |s|
    ensures |rep| <= |pat| ==> |r| <= |s|
    decreases |s|
  {
    if |s| < |pat| then s
    else if s[..|pat|] == pat then rep + ReplaceAll(s[|pat|..], pat, rep)
    else [s[0]] + ReplaceAll(s[1..], pat, rep)
  }

  /** A string in which pat does not occur is left as it is. */
  lemma {:induction false} ReplaceAbsent(s: string, pat: string, rep: string)
    requires |pat| > 0
    requires !Contains(s, pat)
    ensures ReplaceAll(s, pat, rep) == s
    decreases |s|
  {
    if |s| >= |pat| {
      assert !StartsWith(s, pat);
      ReplaceAbsent(s[1..], pat, rep);
      assert [s[0]] + s[1..] == s;
    }
  }

  const MOBILE_IMGUR: string := "m.imgur.com"
  const DIRECT_IMGUR: string := "i.imgur.com"

  /** The URL the bot fetches: the imgur mobile host replaced by the direct
      host, then the whole URL lower-cased (replacement first, so an
      upper-case mobile host is lower-cased but not replaced). */
  function NormalizeUrl(url: string): (r: string)
    ensures |r| == |url|
    ensures forall i :: 0 <= i < |r| ==> !IsUpper(r[i])
  {
    LowerIsLower(ReplaceAll(url, MOBILE_IMGUR, DIRECT_IMGUR));
    Lower(ReplaceAll(url, MOBILE_IMGUR, DIRECT_IMGUR))
  }

  /** The extensions fetch_media accepts, as substrings anywhere in the URL. */
  const IMAGE_EXTENSIONS: seq<string> := [".jpg", ".png", ".jpeg"]

  /** fetch_media's first test: some accepted extension occurs in the URL,
      at any position, which makes the URL at least four characters long. */
  function HasImageExtension(url: string): (b: bool)
    ensures b <==> exists k: nat, i: nat :: k < |IMAGE_EXTENSIONS| && OccursAt(url, IMAGE_EXTENSIONS[k], i)
    ensures b ==> |url| >= 4
  {
    ExtensionOccurs(url, 0);
    ExtensionOccurs(url, 1);
    ExtensionOccurs(url, 2);
    exists k :: 0 <= k < |IMAGE_EXTENSIONS| && Contains(url, IMAGE_EXTENSIONS[k])
  }

  /** The scan finds extension k exactly when it occurs somewhere. */
  lemma ExtensionOccurs(url: string, k: nat)
    requires k < |IMAGE_EXTENSIONS|
    ensures Contains(url, IMAGE_EXTENSIONS[k]) <==> exists i: nat :: OccursAt(url, IMAGE_EXTENSIONS[k], i)
    ensures Contains(url, IMAGE_EXTENSIONS[k]) ==> |url| >= 4
  {
    ContainsIffOccurs(url, IMAGE_EXTENSIONS[k]);
  }

  /** The extension test is case-insensitive: an upper-case ".JPG", ".PNG" or
      ".JPEG" anywhere in the URL is accepted, mobile imgur links included,
      since the host replacement only turns an 'm' into an 'i'. */
  lemma UpperExtensionAccepted(url: string, k: nat)
    requires k < |IMAGE_EXTENSIONS|
    requires Contains(url, Upper(IMAGE_EXTENSIONS[k]))
    ensures HasImageExtension(NormalizeUrl(url))
  {
    var ext := Upper(IMAGE_EXTENSIONS[k]);
    ReplaceKeepsOccurrence(url, ext, MOBILE_IMGUR, DIRECT_IMGUR);
    LowerKeepsContains(ReplaceAll(url, MOBILE_IMGUR, DIRECT_IMGUR), ext);
    assert Lower(ext) == IMAGE_EXTENSIONS[k];
  }

  /** Replacing pat by a text that differs from it only in its first
      character changes only characters equal to that first character. */
  lemma {:induction false} ReplaceChangesOnlyFirst(s: string, pat: string, rep: string)
    requires |pat| > 0 && |rep| == |pat| && pat[1..] == rep[1..]
    ensures var r := ReplaceAll(s, pat, rep);
      forall j :: 0 <= j < |s| ==> r[j] == s[j] || (s[j] == pat[0] && r[j] == rep[0])
    decreases |s|
  {
    if |s| >= |pat| {
      var r := ReplaceAll(s, pat, rep);
      if s[..|pat|] == pat {
        ReplaceChangesOnlyFirst(s[|pat|..], pat, rep);
        forall j | 0 <= j < |s|
          ensures r[j] == s[j] || (s[j] == pat[0] && r[j] == rep[0])
        {
          if j < |pat| {
            if j > 0 {
              assert rep[j] == rep[1..][j - 1] == pat[1..][j - 1] == pat[j];
            }
          } else {
            assert r[j] == ReplaceAll(s[|pat|..], pat, rep)[j - |pat|];
          }
        }
      } else {
        ReplaceChangesOnlyFirst(s[1..], pat, rep);
        forall j | 0 <= j < |s|
          ensures r[j] == s[j] || (s[j] == pat[0] && r[j] == rep[0])
        {
          if j > 0 {
            assert r[j] == ReplaceAll(s[1..], pat, rep)[j - 1];
          }
        }
      }
    }
  }

  /** Such a replacement keeps every occurrence of a text that does not
      contain the pattern's first character. */
  lemma ReplaceKeepsOccurrence(s: string, t: string, pat: string, rep: string)
    requires |pat| > 0 && |rep| == |pat| && pat[1..] == rep[1..]
    requires forall j :: 0 <= j < |t| ==> t[j] != pat[0]
    requires Contains(s, t)
    ensures Contains(ReplaceAll(s, pat, rep), t)
  {
    var r := ReplaceAll(s, pat, rep);
    ContainsIffOccurs(s, t);
    var i: nat :| OccursAt(s, t, i);
    ReplaceChangesOnlyFirst(s, pat, rep);
    assert r[i..i + |t|] == t by {
      forall j | 0 <= j < |t|
        ensures r[i + j] == t[j]
      {
        assert s[i + j] == t[j];
      }
    }
    assert OccursAt(r, t, i);
    ContainsIffOccurs(r, t);
  }

  /** ASCII upper-casing, used only to state which spellings are accepted. */
  function Upper(s: string): (r: string)
    ensures |r| == |s|
    ensures forall i :: 0 <= i < |r| ==> !('a' <= r[i] <= 'z')
  {
    seq(|s|, i requires 0 <= i < |s| => if 'a' <= s[i] <= 'z' then (s[i] as int - 32) as char else s[i])
  }

  /** Characters that cannot start pat are copied through unchanged. */
  lemma {:induction false} ReplaceSkipsPrefix(p: string, s: string, pat: string, rep: string)
    requires |pat| > 0
    requires forall i :: 0 <= i < |p| ==> p[i] != pat[0]
    ensures ReplaceAll(p + s, pat, rep) == p + ReplaceAll(s, pat, rep)
    decreases |p|
  {
    if p == [] {
      assert p + s == s;
    } else if |p + s| >= |pat| {
      assert (p + s)[0] != pat[0];
      assert (p + s)[1..] == p[1..] + s;
      ReplaceSkipsPrefix(p[1..], s, pat, rep);
      assert [p[0]] + p[1..] == p;
    }
  }

  /** An occurrence of pat at the front is replaced and the scan resumes
      after it. */
  lemma ReplaceAtFront(rest: string, pat: string, rep: string)
    requires |pat| > 0
    ensures ReplaceAll(pat + rest, pat, rep) == rep + ReplaceAll(rest, pat, rep)
  {
    assert (pat + rest)[..|pat|] == pat;
    assert (pat + rest)[|pat|..] == rest;
  }

  /** A mobile imgur link is fetched from the direct host: when the text
      before the host cannot start the host name and the host does not
      occur again, the normalised URL is the lower-cased direct link. */
  lemma MobileLinkRewritten(scheme: string, rest: string)
    requires forall i :: 0 <= i < |scheme| ==> scheme[i] != MOBILE_IMGUR[0]
    requires !Contains(rest, MOBILE_IMGUR)
    ensures NormalizeUrl(scheme + MOBILE_IMGUR + rest) == Lower(scheme + DIRECT_IMGUR + rest)
  {
    ReplaceAbsent(rest, MOBILE_IMGUR, DIRECT_IMGUR);
    ReplaceAtFront(rest, MOBILE_IMGUR, DIRECT_IMGUR);
    ReplaceSkipsPrefix(scheme, MOBILE_IMGUR + rest, MOBILE_IMGUR, DIRECT_IMGUR);
    assert scheme + MOBILE_IMGUR + rest == scheme + (MOBILE_IMGUR + rest);
    assert scheme + DIRECT_IMGUR + rest == scheme + (DIRECT_IMGUR + rest);
  }
}
