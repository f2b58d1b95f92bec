/**
  The seller e-mail check: Python's `re.match` of the pattern
  `[^@]+@[^@]+\.[^@]+` against the whole value.

  `re.match` anchors the pattern at the start of the string only, so a value
  is accepted as soon as some PREFIX of it is matched in full.  The module
  gives that meaning twice: `RegexMatch` states it literally (a prefix and
  two split points), and `IsEmail` decides it with two forward scans.
  `IsEmailIffRegexMatch` proves the two agree on every string.
 */
module Email {

  /** A run matched by `[^@]+` or `[^@]*`: no character of it is '@'. */
  predicate AtFree(s: seq<char>) {
    forall i :: 0 <= i < |s| ==> s[i] != '@'
  }

  /** `p` is matched IN FULL by `[^@]+@[^@]+\.[^@]+`, with the '@' at index
      `i` and the literal '.' at index `j`. */
  predicate FullMatchAt(p: seq<char>, i: int, j: int) {
    && 0 < i
    && i + 1 < j
    && j + 1 < |p|
    && AtFree(p[..i])
    && p[i] == '@'
    && AtFree(p[i + 1..j])
    && p[j] == '.'
    && AtFree(p[j + 1..])
  }

  /** `p` is matched in full by the pattern, for some choice of split points. */
  ghost predicate FullMatch(p: seq<char>) {
    exists i, j :: FullMatchAt(p, i, j)
  }

  /** What `re.match(pattern, s)` answers: some prefix of `s` is matched in full. */
  ghost predicate RegexMatch(s: seq<char>) {
    exists n :: 0 <= n <= |s| && FullMatch(s[..n])
  }

  /** Index of the first `c` in `s` at or after `from`, or `|s|` when there is none. */
  function Find(s: seq<char>, c: char, from: nat): (k: nat)
    requires from <= |s|
    ensures from <= k <= |s|
    ensures k < |s| ==> s[k] == c
    ensures forall i :: from <= i < k ==> s[i] != c
    decreases |s| - from
  {
    if from == |s| then from
    else if s[from] == c then from
    else Find(s, c, from + 1)
  }

  /** The executable check.  The local part is everything before the first
      '@'; the domain part runs up to the next '@' (or the end).  The value is
      accepted when the local part is non-empty and the domain part holds a
      '.' that is neither its first nor its last character. */
  predicate IsEmail(s: seq<char>) {
    var at := Find(s, '@', 0);
    if at == 0 || at + 2 > |s| then false
    else
      var nextAt := Find(s, '@', at + 1);
      var dot := Find(s, '.', at + 2);
      dot + 1 < nextAt
  }

  /** The scan and the regular expression accept exactly the same strings. */
  lemma IsEmailIffRegexMatch(s: seq<char>)
    ensures IsEmail(s) <==> RegexMatch(s)
  {
    if IsEmail(s) {
      IsEmailHasWitness(s);
    }
    if RegexMatch(s) {
      var n :| 0 <= n <= |s| && FullMatch(s[..n]);
      var i, j :| FullMatchAt(s[..n], i, j);
      WitnessIsAccepted(s, n, i, j);
    }
  }

  /** Accepted by the scan: the prefix ending one past the dot is a full match. */
  lemma IsEmailHasWitness(s: seq<char>)
    requires IsEmail(s)
    ensures RegexMatch(s)
  {
    var at := Find(s, '@', 0);
    var nextAt := Find(s, '@', at + 1);
    var dot := Find(s, '.', at + 2);
    var p := s[..dot + 2];
    assert AtFree(p[..at]) by {
      forall k | 0 <= k < at ensures p[..at][k] != '@' {
        assert p[..at][k] == s[k];
      }
    }
    var domain := p[at + 1..dot];
    assert AtFree(domain) by {
      forall k | 0 <= k < |domain| ensures domain[k] != '@' {
        assert domain[k] == s[at + 1 + k];
      }
    }
    assert AtFree(p[dot + 1..]) by {
      assert p[dot + 1..] == [s[dot + 1]];
    }
    assert FullMatchAt(p, at, dot);
    assert FullMatch(s[..dot + 2]);
  }

  /** A full match of a prefix pins the scan: the '@' of the match is the first
      '@', and the scan finds a dot no later than the match's dot. */
  lemma WitnessIsAccepted(s: seq<char>, n: int, i: int, j: int)
    requires 0 <= n <= |s|
    requires FullMatchAt(s[..n], i, j)
    ensures IsEmail(s)
  {
    var p := s[..n];
    forall k | 0 <= k < i ensures s[k] != '@' {
      assert p[..i][k] == s[k];
    }
    assert s[i] == p[i];
    var at := Find(s, '@', 0);
    assert at == i;
    forall k | i + 1 <= k <= j + 1 ensures s[k] != '@' {
      if k < j {
        assert p[i + 1..j][k - i - 1] == s[k];
      } else if k == j {
        assert s[k] == p[j];
      } else {
        assert p[j + 1..][0] == s[k];
      }
    }
    var nextAt := Find(s, '@', at + 1);
    assert j + 1 < nextAt;
    assert s[j] == '.';
    var dot := Find(s, '.', at + 2);
    assert dot <= j;
  }

  /** `re.match` is anchored at the start only: whatever follows an accepted
      value, the longer value is accepted as well. */
  lemma {:induction false} RegexMatchExtends(s: seq<char>, t: seq<char>)
    requires RegexMatch(s)
    ensures RegexMatch(s + t)
  {
    var n :| 0 <= n <= |s| && FullMatch(s[..n]);
    assert (s + t)[..n] == s[..n];
  }

  /** The same extension law for the executable check. */
  lemma IsEmailExtends(s: seq<char>, t: seq<char>)
    requires IsEmail(s)
    ensures IsEmail(s + t)
  {
    IsEmailIffRegexMatch(s);
    RegexMatchExtends(s, t);
    IsEmailIffRegexMatch(s + t);
  }

  /** The shape every accepted value has: it does not start with '@', it is
      at least five characters long ("a@b.c"), and an '@' in it is later
      followed by a '.'. */
  lemma AcceptedShape(s: seq<char>)
    requires RegexMatch(s)
    ensures |s| >= 5
    ensures s[0] != '@'
    ensures exists i, j :: 0 < i < j < |s| && s[i] == '@' && s[j] == '.'
  {
    var n :| 0 <= n <= |s| && FullMatch(s[..n]);
    var i, j :| FullMatchAt(s[..n], i, j);
    assert s[..n][..i][0] == s[0];
    assert s[i] == s[..n][i] && s[j] == s[..n][j];
  }

  /** Any '@'-free local part, '@', '@'-free domain, '.', '@'-free suffix,
      all non-empty, make an accepted value. */
  lemma ComposedIsAccepted(local: seq<char>, domain: seq<char>, suffix: seq<char>)
    requires |local| > 0 && |domain| > 0 && |suffix| > 0
    requires AtFree(local) && AtFree(domain) && AtFree(suffix)
    ensures RegexMatch(local + "@" + domain + "." + suffix)
  {
    var s := local + "@" + domain + "." + suffix;
    var i, j := |local|, |local| + 1 + |domain|;
    assert s[..i] == local;
    assert s[i + 1..j] == domain;
    assert s[j + 1..] == suffix;
    MatchedInFull(s, i, j);
  }

  /** The address the create test posts is accepted. */
  lemma CreateTestAddressAccepted()
    ensures RegexMatch("vp@ya.ru")
  {
    ComposedIsAccepted("vp", "ya", "ru");
    assert "vp" + "@" + "ya" + "." + "ru" == "vp@ya.ru";
  }

  /** The addresses of the sellers the tests store directly are accepted. */
  lemma FixtureAddressesAccepted()
    ensures RegexMatch("iht@ya.ru")
    ensures RegexMatch("isht@ya.ru")
  {
    ComposedIsAccepted("iht", "ya", "ru");
    assert "iht" + "@" + "ya" + "." + "ru" == "iht@ya.ru";
    ComposedIsAccepted("isht", "ya", "ru");
    assert "isht" + "@" + "ya" + "." + "ru" == "isht@ya.ru";
  }

  /** The address the update test sends is accepted. */
  lemma UpdateTestAddressAccepted()
    ensures RegexMatch("js_forever@ya.ru")
  {
    ComposedIsAccepted("js_forever", "ya", "ru");
    assert "js_forever" + "@" + "ya" + "." + "ru" == "js_forever@ya.ru";
  }

  /** Values the pattern turns away for a missing part: no '@', an empty
      local part, or no dot in the domain. */
  lemma MissingPartsRejected()
    ensures !RegexMatch("a.b.c")
    ensures !RegexMatch("@b.c")
    ensures !RegexMatch("a@bc")
  {
    ScanRejects("a.b.c");
    ScanRejects("@b.c");
    ScanRejects("a@bc");
  }

  /** Values the pattern turns away for a misplaced dot: right after the '@',
      at the very end, or right before another '@'. */
  lemma MisplacedDotRejected()
    ensures !RegexMatch("a@.c")
    ensures !RegexMatch("a@b.")
    ensures !RegexMatch("a@b.@c")
  {
    ScanRejects("a@.c");
    ScanRejects("a@b.");
    ScanRejects("a@b.@c");
  }

  /** A value the scan rejects is not matched by the regular expression. */
  lemma ScanRejects(s: seq<char>)
    requires !IsEmail(s)
    ensures !RegexMatch(s)
  {
    IsEmailIffRegexMatch(s);
  }

  /** A value matched in full is accepted (take the whole value as the prefix). */
  lemma MatchedInFull(s: seq<char>, i: int, j: int)
    requires FullMatchAt(s, i, j)
    ensures RegexMatch(s)
  {
    assert s[..|s|] == s;
  }
}
