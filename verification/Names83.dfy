/**
 8.3 names. The rule is stated once; the two independently written checkers of the firmware
 (rp_fs_path.cpp and rp_fs.cpp) are both proved to decide it, so they agree on every string.
 */
module Names83 {
  import opened Words

  predicate NameChar(c: char) {
    'A' <= c <= 'Z' || '0' <= c <= '9' || c == '_' || c == '-' || c == '$' || c == '~'
  }

  /** Capital letters, digits and four signs. */
  lemma NameCharsListed(c: char)
    ensures NameChar(c) <==> c in "ABCDEFGHIJKLMNOPQRSTUVWXYZ" || c in "0123456789" || c in "_-$~"
  {
    LettersListed(c);
    assert '0' <= c <= '9' ==> "0123456789"[c as int - '0' as int] == c;
    assert "_-$~"[0] == '_' && "_-$~"[1] == '-' && "_-$~"[2] == '$' && "_-$~"[3] == '~';
  }

  lemma LettersListed(c: char)
    ensures 'A' <= c <= 'Z' <==> c in "ABCDEFGHIJKLMNOPQRSTUVWXYZ"
  {
    if 'A' <= c <= 'Z' {
      assert "ABCDEFGHIJKLMNOPQRSTUVWXYZ"[c as int - 'A' as int] == c;
    }
  }

  ghost predicate NameChars(s: string) {
    forall i | 0 <= i < |s| :: NameChar(s[i])
  }

  /** BASE or BASE.EXT, with 1 to 8 and 1 to 3 name characters. */
  ghost predicate Valid83(s: string) {
    (1 <= |s| <= 8 && NameChars(s)) || exists dot :: DotAt(s, dot)
  }

  ghost predicate DotAt(s: string, dot: nat) {
    && 1 <= dot <= 8 && dot + 2 <= |s| <= dot + 4
    && s[dot] == '.' && NameChars(s[..dot]) && NameChars(s[dot + 1..])
  }

  /** A valid name is not empty, not "." or "..", and holds neither '/' nor NUL. */
  lemma Valid83Shape(s: string)
    requires Valid83(s)
    ensures 1 <= |s| <= 12 && s != "." && s != ".." && '/' !in s && '\0' !in s
  {
    if dot: nat :| DotAt(s, dot) {
      forall i | 0 <= i < |s| && i != dot
        ensures NameChar(s[i])
      {
        assert s[i] == if i < dot then s[..dot][i] else s[dot + 1..][i - dot - 1];
      }
    }
    assert NameChar(s[0]);
  }

  /** What both checkers have established after i characters. */
  ghost predicate Scanned(s: string, i: nat, baseLen: nat, extLen: nat, inExt: bool) {
    && i <= |s| && baseLen <= 8 && extLen <= 3
    && (!inExt ==> baseLen == i && extLen == 0 && NameChars(s[..i]))
    && (inExt ==> 1 <= baseLen && i == baseLen + 1 + extLen && s[baseLen] == '.' &&
                  NameChars(s[..baseLen]) && NameChars(s[baseLen + 1..i]))
  }

  /** A name whose first i characters are scanned stays valid only if the next one fits. */
  lemma NextFits(s: string, i: nat, baseLen: nat, extLen: nat, inExt: bool)
    requires Scanned(s, i, baseLen, extLen, inExt) && i < |s| && Valid83(s)
    ensures s[i] == '.' ==> !inExt && baseLen != 0
    ensures s[i] != '.' ==> NameChar(s[i]) && (if inExt then extLen < 3 else baseLen < 8)
  {
    if dot: nat :| DotAt(s, dot) {
      assert forall j | 0 <= j < dot :: s[..dot][j] == s[j];
      assert forall j | dot < j < |s| :: s[dot + 1..][j - dot - 1] == s[j];
      if inExt {
        assert baseLen == dot by {
          assert s[..baseLen] == s[..baseLen];
          assert forall j | 0 <= j < baseLen :: s[..baseLen][j] == s[j];
        }
      } else {
        assert forall j | 0 <= j < i :: s[..i][j] == s[j];
      }
    }
  }

  lemma ScanDecides(s: string, baseLen: nat, extLen: nat, inExt: bool)
    requires Scanned(s, |s|, baseLen, extLen, inExt)
    ensures Valid83(s) <==> baseLen != 0 && (!inExt || extLen != 0)
  {
    assert s[..|s|] == s;
    if inExt {
      assert s[baseLen + 1..|s|] == s[baseLen + 1..];
      if extLen != 0 {
        assert DotAt(s, baseLen);
      }
      if dot: nat :| DotAt(s, dot) {
        assert forall j | 0 <= j < dot :: s[..dot][j] == s[j];
        assert forall j | 0 <= j < baseLen :: s[..baseLen][j] == s[j];
      }
    } else if dot: nat :| DotAt(s, dot) {
      assert NameChar(s[..|s|][dot]);
    }
  }

  lemma ScanStep(s: string, i: nat, baseLen: nat, extLen: nat, inExt: bool)
    requires Scanned(s, i, baseLen, extLen, inExt) && i < |s|
    ensures s[i] == '.' && !inExt && baseLen != 0 ==> Scanned(s, i + 1, baseLen, 0, true)
    ensures NameChar(s[i]) && inExt && extLen < 3 ==> Scanned(s, i + 1, baseLen, extLen + 1, true)
    ensures NameChar(s[i]) && !inExt && baseLen < 8 ==> Scanned(s, i + 1, baseLen + 1, 0, false)
  {
    assert s[..i + 1] == s[..i] + [s[i]];
    if inExt {
      assert s[baseLen + 1..i + 1] == s[baseLen + 1..i] + [s[i]];
    }
  }

  /** rp_fs_path_component_valid_83 (rp_fs_path.cpp). */
  method PathComponentValid(s: string) returns (valid: bool)
    ensures valid <==> Valid83(s)
  {
    if |s| == 0 {
      return false;
    }
    var baseLen: u8, extLen: u8, inExt := 0, 0, false;
    var i := 0;
    while i < |s|
      invariant Scanned(s, i, baseLen, extLen, inExt)
    {
      var c := s[i];
      ScanStep(s, i, baseLen, extLen, inExt);
      if Valid83(s) {
        NextFits(s, i, baseLen, extLen, inExt);
      }
      if c == '/' || c == '\\' || c == ':' || c < 33 as char || c >= 127 as char {
        return false;
      }
      if 'a' <= c <= 'z' {
        return false;
      }
      if c == '.' {
        if inExt || baseLen == 0 {
          return false;
        }
        inExt := true;
      } else {
        if !('A' <= c <= 'Z') && !('0' <= c <= '9') && c != '_' && c != '-' && c != '$' && c != '~' {
          return false;
        }
        if inExt {
          extLen := extLen + 1;
          if extLen > 3 {
            return false;
          }
        } else {
          baseLen := baseLen + 1;
          if baseLen > 8 {
            return false;
          }
        }
      }
      i := i + 1;
    }
    ScanDecides(s, baseLen, extLen, inExt);
    return baseLen != 0 && (!inExt || extLen != 0);
  }

  /** rp_fs_is_valid_83_component (rp_fs.cpp), which has no test for '/' of its own. */
  method FatComponentValid(s: string) returns (valid: bool)
    ensures valid <==> Valid83(s)
  {
    if |s| == 0 {
      return false;
    }
    var baseLen: u8, extLen: u8, inExt := 0, 0, false;
    var i := 0;
    while i < |s|
      invariant Scanned(s, i, baseLen, extLen, inExt)
    {
      var c := s[i];
      ScanStep(s, i, baseLen, extLen, inExt);
      if Valid83(s) {
        NextFits(s, i, baseLen, extLen, inExt);
      }
      if c == '\\' || c == ':' || c < 33 as char || c >= 127 as char {
        return false;
      }
      if 'a' <= c <= 'z' {
        return false;
      }
      if c == '.' {
        if inExt || baseLen == 0 {
          return false;
        }
        inExt := true;
      } else {
        if !('A' <= c <= 'Z') && !('0' <= c <= '9') && c != '_' && c != '-' && c != '$' && c != '~' {
          return false;
        }
        if inExt {
          extLen := extLen + 1;
          if extLen > 3 {
            return false;
          }
        } else {
          baseLen := baseLen + 1;
          if baseLen > 8 {
            return false;
          }
        }
      }
      i := i + 1;
    }
    ScanDecides(s, baseLen, extLen, inExt);
    return baseLen != 0 && (!inExt || extLen != 0);
  }
}
