/** The renderer's pure name rules: the title parsed from a file name
    ("01. My Song.mp3" gives "My Song") and the test for a name that carries
    a duplicate marker such as "(1)". */
module NameRules {
  import opened Seqs
  import opened Text
  import opened PathNames

  /** `s` ends in a `.` followed by at least one character and no further `.`,
      which is what `/\.[^.]+$/` looks for. */
  ghost predicate HasExtensionSuffix(s: string) {
    exists k :: 0 <= k < |s| - 1 && s[k] == '.' && '.' !in s[k + 1..]
  }

  /** The last `.` decides whether `/\.[^.]+$/` matches: it does exactly
      when that dot is not the last character. */
  lemma LastDotDecidesSuffix(s: string)
    ensures HasExtensionSuffix(s) <==> 0 <= LastIndexOf(s, '.') < |s| - 1
  {
    var k := LastIndexOf(s, '.');
    if 0 <= k < |s| - 1 {
      assert s[k] == '.' && '.' !in s[k + 1..];
    }
    if HasExtensionSuffix(s) {
      var j :| 0 <= j < |s| - 1 && s[j] == '.' && '.' !in s[j + 1..];
      assert k == j;
    }
  }

  /** `s.replace(/\.[^.]+$/, '')`: cuts the last `.` and what follows it, unless
      that `.` is the last character (then nothing matches). */
  function StripExtension(s: string): (r: string)
    ensures |r| <= |s| && r == s[..|r|]
    ensures HasExtensionSuffix(s) ==>
      |r| < |s| - 1 && s[|r|] == '.' && '.' !in s[|r| + 1..]
    ensures !HasExtensionSuffix(s) ==> r == s
  {
    LastDotDecidesSuffix(s);
    var k := LastIndexOf(s, '.');
    if 0 <= k < |s| - 1 then s[..k] else s
  }

  /** Removing the extension of `x.e` gives back `x`. */
  lemma StripExtensionOf(x: string, e: string)
    requires e != [] && '.' !in e
    ensures StripExtension(x + "." + e) == x
  {
    var s := x + "." + e;
    assert s[|x|] == '.' && s[|x| + 1..] == e;
    assert HasExtensionSuffix(s);
    var r := StripExtension(s);
    assert forall k :: |r| < k < |s| ==> s[k] != '.' by {
      forall k | |r| < k < |s| ensures s[k] != '.' {
        assert s[k] == s[|r| + 1..][k - |r| - 1];
      }
    }
    assert forall k :: |x| < k < |s| ==> s[k] != '.' by {
      forall k | |x| < k < |s| ensures s[k] != '.' {
        assert s[k] == e[k - |x| - 1];
      }
    }
  }

  /** The characters that may separate a leading track number from the title:
      `.`, `-` and white space. */
  predicate IsTrackSeparator(c: char) {
    c == '.' || c == '-' || IsSpace(c)
  }

  /** `s.replace(/^\d+[\.\-\s]+/, '')`: drops a leading run of digits together
      with the run of separators after it; a string that does not start that
      way is left alone. */
  function StripTrackNumber(s: string): (r: string)
    ensures |r| <= |s| && r == s[|s| - |r|..]
    ensures |r| < |s| ==>
      var d := LeadingCount(s, IsDigit);
      1 <= d < |s| - |r|
      && (forall k :: d <= k < |s| - |r| ==> IsTrackSeparator(s[k]))
      && (r == [] || !IsTrackSeparator(r[0]))
  {
    var d := LeadingCount(s, IsDigit);
    var m := LeadingCount(s[d..], IsTrackSeparator);
    if d >= 1 && m >= 1 then
      assert s[d + m..] == s[d..][m..];
      s[d + m..]
    else s
  }

  /** The three parts of a numbered name: the number is removed with its
      separators and the rest is kept. */
  lemma StripTrackNumberOf(digits: string, seps: string, t: string)
    requires digits != [] && forall k :: 0 <= k < |digits| ==> IsDigit(digits[k])
    requires seps != [] && forall k :: 0 <= k < |seps| ==> IsTrackSeparator(seps[k])
    requires t == [] || !IsTrackSeparator(t[0])
    ensures StripTrackNumber(digits + seps + t) == t
  {
    var s := digits + seps + t;
    assert LeadingCount(s, IsDigit) == |digits| by {
      LeadingCountOfPrefix(s, IsDigit, |digits|);
    }
    assert s[|digits|..] == seps + t;
    assert LeadingCount(seps + t, IsTrackSeparator) == |seps| by {
      LeadingCountOfPrefix(seps + t, IsTrackSeparator, |seps|);
    }
    assert s[|digits| + |seps|..] == t;
  }

  /** A name that does not start with a digit keeps its start. */
  lemma StripTrackNumberNoDigit(s: string)
    requires s == [] || !IsDigit(s[0])
    ensures StripTrackNumber(s) == s
  {
  }

  /** The title the player proposes for a file name: extension removed, then
      a leading track number, then surrounding white space. */
  function TitleFromFilename(filename: string): (r: string)
    ensures r == [] || (!IsSpace(r[0]) && !IsSpace(r[|r| - 1]))
  {
    var t := StripTrackNumber(StripExtension(filename));
    Trim(t)
  }

  /** The title of a path is taken from its display name. */
  function TitleFromPath(p: string): string {
    TitleFromFilename(DisplayName(p))
  }

  /** `"01. My Song.mp3"` gives `"My Song"`. */
  lemma TitleOfNumberedSong()
    ensures TitleFromFilename("01. My Song.mp3") == "My Song"
  {
    assert "01. My Song.mp3" == "01" + ". " + "My Song" + "." + "mp3";
    TitleOfNumberedName("01", ". ", "My Song", "mp3");
  }

  /** A name that does not start with a digit keeps its whole stem as title. */
  lemma TitleOfUnnumberedName(x: string, e: string)
    requires x != [] && !IsDigit(x[0]) && !IsSpace(x[0]) && !IsSpace(x[|x| - 1])
    requires e != [] && '.' !in e
    ensures TitleFromFilename(x + "." + e) == x
  {
    assert StripExtension(x + "." + e) == x by {
      StripExtensionOf(x, e);
    }
    assert StripTrackNumber(x) == x by {
      StripTrackNumberNoDigit(x);
    }
    TrimOfTrimmed(x);
  }

  /** `"Track.mp3"` gives `"Track"`. */
  lemma TitleOfPlainName()
    ensures TitleFromFilename("Track.mp3") == "Track"
  {
    assert "Track.mp3" == "Track" + "." + "mp3";
    TitleOfUnnumberedName("Track", "mp3");
  }

  /** A name that is only a number keeps the number as its title. */
  lemma TitleOfNumberOnly(digits: string, e: string)
    requires digits != [] && forall k :: 0 <= k < |digits| ==> IsDigit(digits[k])
    requires e != [] && '.' !in e
    ensures TitleFromFilename(digits + "." + e) == digits
  {
    StripExtensionOf(digits, e);
    LeadingCountOfPrefix(digits, IsDigit, |digits|);
    TrimOfTrimmed(digits);
  }

  /** A number that is not followed by a separator is part of the title:
      `"2024.mp3"` gives `"2024"`. */
  lemma TitleOfBareNumber()
    ensures TitleFromFilename("2024.mp3") == "2024"
  {
    assert "2024.mp3" == "2024" + "." + "mp3";
    TitleOfNumberOnly("2024", "mp3");
  }

  /** A title is taken whole from a name of the form `<number><separators><title>.<ext>`. */
  lemma TitleOfNumberedName(digits: string, seps: string, title: string, e: string)
    requires digits != [] && forall k :: 0 <= k < |digits| ==> IsDigit(digits[k])
    requires seps != [] && forall k :: 0 <= k < |seps| ==> IsTrackSeparator(seps[k])
    requires title != [] && !IsTrackSeparator(title[0]) && !IsSpace(title[|title| - 1])
    requires e != [] && '.' !in e
    ensures TitleFromFilename(digits + seps + title + "." + e) == title
  {
    assert StripExtension(digits + seps + title + "." + e) == digits + seps + title by {
      StripExtensionOf(digits + seps + title, e);
    }
    assert StripTrackNumber(digits + seps + title) == title by {
      StripTrackNumberOf(digits, seps, title);
    }
    TrimOfTrimmed(title);
  }

  /** A marker `(`, one or more digits, `)` starts at position `a` of `s`. */
  ghost predicate MarkerAt(s: string, a: int) {
    0 <= a < |s| && s[a] == '('
    && exists j :: a + 1 < j < |s| && s[j] == ')' && forall k :: a < k < j ==> IsDigit(s[k])
  }

  /** `s` contains `(`, one or more digits, `)` somewhere: what
      `/\(\d+\)/.test(s)` checks. */
  ghost predicate ContainsParenNumber(s: string) {
    exists a :: MarkerAt(s, a)
  }

  /** `/\(\d+\)/` tried at every position from `i` on. */
  function ParenNumberFrom(s: string, i: nat): bool
    requires i <= |s|
    decreases |s| - i
  {
    if i == |s| then false
    else if s[i] == '(' && ParenNumberAt(s, i) then true
    else ParenNumberFrom(s, i + 1)
  }

  /** `/\(\d+\)/` matches at position `i`, where `s[i]` is `(`. */
  predicate ParenNumberAt(s: string, i: nat)
    requires i < |s|
  {
    var n := LeadingCount(s[i + 1..], IsDigit);
    n >= 1 && i + 1 + n < |s| && s[i + 1 + n] == ')'
  }

  /** The match attempt at one `(` succeeds exactly when a marker starts there. */
  lemma ParenNumberAtSpec(s: string, i: nat)
    requires i < |s| && s[i] == '('
    ensures ParenNumberAt(s, i) <==> MarkerAt(s, i)
  {
    var t := s[i + 1..];
    var n := LeadingCount(t, IsDigit);
    if ParenNumberAt(s, i) {
      var j := i + 1 + n;
      assert s[j] == ')';
      forall k | i < k < j ensures IsDigit(s[k]) {
        assert s[k] == t[k - i - 1];
      }
    }
    forall j | i + 1 < j < |s| && s[j] == ')' && (forall k :: i < k < j ==> IsDigit(s[k]))
      ensures ParenNumberAt(s, i)
    {
      forall k | 0 <= k < j - i - 1 ensures IsDigit(t[k]) {
        assert t[k] == s[i + 1 + k];
      }
      assert t[j - i - 1] == ')';
      LeadingCountOfPrefix(t, IsDigit, j - i - 1);
    }
  }

  /** The scan from `i` finds a match exactly when a marker starts at or after `i`. */
  lemma {:induction false} ParenNumberFromSpec(s: string, i: nat)
    requires i <= |s|
    ensures ParenNumberFrom(s, i) <==> exists a :: i <= a && MarkerAt(s, a)
    decreases |s| - i
  {
    if i < |s| {
      ParenNumberFromSpec(s, i + 1);
      if s[i] == '(' {
        ParenNumberAtSpec(s, i);
      }
      if ParenNumberFrom(s, i) && !MarkerAt(s, i) {
        var a :| i + 1 <= a && MarkerAt(s, a);
        assert i <= a;
      }
      if MarkerAt(s, i) {
        assert ParenNumberFrom(s, i);
      }
    }
  }

  /** The scan finds a match exactly when there is one. */
  function HasParenNumber(s: string): (r: bool)
    ensures r <==> ContainsParenNumber(s)
  {
    ParenNumberFromSpec(s, 0);
    ParenNumberFrom(s, 0)
  }

  /** The display name of `p` carries a duplicate marker. */
  predicate IsDuplicateCandidate(p: string) {
    HasParenNumber(DisplayName(p))
  }

  /** The AI-rename candidates: the paths whose display name carries a
      duplicate marker, in their order. */
  function DuplicateCandidates(paths: seq<string>): (r: seq<string>)
    ensures forall p :: p in r <==> p in paths && ContainsParenNumber(DisplayName(p))
    ensures Distinct(paths) ==> Distinct(r)
  {
    FilterDistinct(paths, IsDuplicateCandidate);
    Filter(paths, IsDuplicateCandidate)
  }

  /** The candidates of a concatenation are those of each part, in order. */
  lemma DuplicateCandidatesAppend(a: seq<string>, b: seq<string>)
    ensures DuplicateCandidates(a + b) == DuplicateCandidates(a) + DuplicateCandidates(b)
  {
    FilterAppend(a, b, IsDuplicateCandidate);
  }

  /** One path is kept exactly when its display name carries a marker; with
      `DuplicateCandidatesAppend` this fixes the order and the count of the
      candidates of every selection. */
  lemma DuplicateCandidatesOne(p: string)
    ensures DuplicateCandidates([p]) == if ContainsParenNumber(DisplayName(p)) then [p] else []
  {
    FilterOne(p, IsDuplicateCandidate);
  }

  /** A name with `(`, digits, `)` somewhere in it carries the marker. */
  lemma MarkerIn(pre: string, digits: string, post: string)
    requires digits != [] && forall k :: 0 <= k < |digits| ==> IsDigit(digits[k])
    ensures HasParenNumber(pre + "(" + digits + ")" + post)
  {
    var s := pre + "(" + digits + ")" + post;
    var i, j := |pre|, |pre| + 1 + |digits|;
    assert s[i] == '(' && s[j] == ')';
    forall k | i < k < j ensures IsDigit(s[k]) {
      assert s[k] == digits[k - i - 1];
    }
    assert MarkerAt(s, i);
  }

  /** A name without `(` carries no marker. */
  lemma NoMarkerWithoutParen(s: string)
    requires '(' !in s
    ensures !HasParenNumber(s)
  {
  }

  /** A bare file name with `(`, digits, `)` in it is a candidate. */
  lemma MarkedNameIsCandidate(pre: string, digits: string, post: string)
    requires digits != [] && forall k :: 0 <= k < |digits| ==> IsDigit(digits[k])
    requires '/' !in pre + post && '\\' !in pre + post
    ensures IsDuplicateCandidate(pre + "(" + digits + ")" + post)
  {
    var s := pre + "(" + digits + ")" + post;
    MarkerIn(pre, digits, post);
    assert forall k :: 0 <= k < |s| ==> s[k] != '/' && s[k] != '\\' by {
      forall k | 0 <= k < |s| ensures s[k] != '/' && s[k] != '\\' {
        if k < |pre| {
          assert s[k] == (pre + post)[k];
        } else if k > |pre| + |digits| + 1 {
          assert s[k] == (pre + post)[k - |digits| - 2];
        } else if |pre| < k <= |pre| + |digits| {
          assert s[k] == digits[k - |pre| - 1];
        }
      }
    }
  }

  /** A bare file name without `(` is not a candidate. */
  lemma UnmarkedNameIsNoCandidate(s: string)
    requires '(' !in s && '/' !in s && '\\' !in s
    ensures !IsDuplicateCandidate(s)
  {
    NoMarkerWithoutParen(s);
  }

  lemma SongIsCandidate()
    ensures IsDuplicateCandidate("Song(1).mp3")
  {
    assert "Song(1).mp3" == "Song" + "(" + "1" + ")" + ".mp3";
    MarkedNameIsCandidate("Song", "1", ".mp3");
  }

  lemma MixIsCandidate()
    ensures IsDuplicateCandidate("Mix (2) live.wav")
  {
    assert "Mix (2) live.wav" == "Mix " + "(" + "2" + ")" + " live.wav";
    MarkedNameIsCandidate("Mix ", "2", " live.wav");
  }

  /** Only the marked names of three survive, in order. */
  lemma CandidatesOfThree(a: string, b: string, c: string)
    requires !IsDuplicateCandidate(a) && IsDuplicateCandidate(b) && IsDuplicateCandidate(c)
    ensures DuplicateCandidates([a, b, c]) == [b, c]
  {
    FilterKeepsLastTwo(a, b, c, IsDuplicateCandidate);
  }

  /** `Song.mp3` is not a candidate, `Song(1).mp3` is, and the marker need not
      sit just before the extension. */
  lemma DuplicateCandidatesExample()
    ensures DuplicateCandidates(["Song.mp3", "Song(1).mp3", "Mix (2) live.wav"])
      == ["Song(1).mp3", "Mix (2) live.wav"]
  {
    UnmarkedNameIsNoCandidate("Song.mp3");
    SongIsCandidate();
    MixIsCandidate();
    CandidatesOfThree("Song.mp3", "Song(1).mp3", "Mix (2) live.wav");
  }
}
