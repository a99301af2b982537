/** The main process's file-name rules: where `fs:trashFile` and `fs:moveFile`
    put a file, the name `ai:renameFile` gives it, and the output path and
    quality argument of `ffmpeg:convertWav`. The file system is a set of
    paths that exist while a handler runs. */
module FileOps {
  import opened Seqs
  import opened Text
  import opened PathNames
  import opened MediaTypes
  import opened NameRules

  /** The `n`-th destination a uniquifying loop tries: `first` for `n = 0`,
      then `dir/<stem><sep><n><ext>`. */
  function Candidate(first: string, dir: string, stem: string, sep: string, ext: string, n: nat): string {
    if n == 0 then first else Join(dir, stem + sep + NatToString(n) + ext)
  }

  /** Two different numbers give two different numbered candidates. */
  lemma CandidateInjective(first: string, dir: string, stem: string, sep: string, ext: string, m: nat, n: nat)
    requires 1 <= m && 1 <= n && m != n
    ensures Candidate(first, dir, stem, sep, ext, m) != Candidate(first, dir, stem, sep, ext, n)
  {
    var a, b := NatToString(m), NatToString(n);
    if Candidate(first, dir, stem, sep, ext, m) == Candidate(first, dir, stem, sep, ext, n) {
      JoinInjective(dir, stem + sep + a + ext, stem + sep + b + ext);
      var x, y := stem + sep + a + ext, stem + sep + b + ext;
      assert |a| == |b|;
      assert a == x[|stem + sep|..|stem + sep| + |a|];
      assert b == y[|stem + sep|..|stem + sep| + |b|];
      NatToStringInjective(m, n);
    }
  }

  /** The numbered candidates below `i`. */
  ghost function NumberedBelow(first: string, dir: string, stem: string, sep: string, ext: string, i: nat): set<string> {
    set k | 1 <= k < i :: Candidate(first, dir, stem, sep, ext, k)
  }

  /** The next numbered candidate is not among the earlier ones. */
  lemma NumberedBelowStep(first: string, dir: string, stem: string, sep: string, ext: string, i: nat)
    requires i >= 1
    ensures NumberedBelow(first, dir, stem, sep, ext, i + 1)
      == NumberedBelow(first, dir, stem, sep, ext, i) + {Candidate(first, dir, stem, sep, ext, i)}
    ensures Candidate(first, dir, stem, sep, ext, i) !in NumberedBelow(first, dir, stem, sep, ext, i)
  {
    forall k | 1 <= k < i
      ensures Candidate(first, dir, stem, sep, ext, k) != Candidate(first, dir, stem, sep, ext, i)
    {
      CandidateInjective(first, dir, stem, sep, ext, k, i);
    }
  }

  /** Trying one more numbered candidate never grows the number of existing
      paths left to try, and shrinks it when that candidate exists. */
  lemma FreeMeasureStep(existing: set<string>, first: string, dir: string, stem: string, sep: string, ext: string, i: nat)
    requires i >= 1
    ensures |existing - NumberedBelow(first, dir, stem, sep, ext, i + 1)|
      <= |existing - NumberedBelow(first, dir, stem, sep, ext, i)|
    ensures Candidate(first, dir, stem, sep, ext, i) in existing ==>
      |existing - NumberedBelow(first, dir, stem, sep, ext, i + 1)|
      < |existing - NumberedBelow(first, dir, stem, sep, ext, i)|
  {
    NumberedBelowStep(first, dir, stem, sep, ext, i);
    var c := Candidate(first, dir, stem, sep, ext, i);
    var before := existing - NumberedBelow(first, dir, stem, sep, ext, i);
    var after := existing - NumberedBelow(first, dir, stem, sep, ext, i + 1);
    assert after == before - {c};
    if c in existing {
      assert c in before;
    }
  }

  /** The `while (fs.existsSync(dest))` loop: tries `first`, then the numbered
      candidates from 1 on, and stops at the first one that does not exist. */
  method FirstFree(existing: set<string>, first: string, dir: string, stem: string, sep: string, ext: string)
    returns (dest: string, n: nat)
    ensures dest !in existing
    ensures dest == Candidate(first, dir, stem, sep, ext, n)
    ensures forall k :: 0 <= k < n ==> Candidate(first, dir, stem, sep, ext, k) in existing
  {
    dest := first;
    var i := 1;
    ghost var left := |existing - NumberedBelow(first, dir, stem, sep, ext, i)|;
    while dest in existing
      invariant i >= 1 && dest == Candidate(first, dir, stem, sep, ext, i - 1)
      invariant forall k :: 0 <= k < i - 1 ==> Candidate(first, dir, stem, sep, ext, k) in existing
      invariant left == |existing - NumberedBelow(first, dir, stem, sep, ext, i)|
      decreases left, if dest in existing then 1 else 0
    {
      FreeMeasureStep(existing, first, dir, stem, sep, ext, i);
      ghost var tried := dest;
      dest := Join(dir, stem + sep + NatToString(i) + ext);
      i := i + 1;
      forall k | 0 <= k < i - 1
        ensures Candidate(first, dir, stem, sep, ext, k) in existing
      {
        if k == i - 2 {
          assert Candidate(first, dir, stem, sep, ext, k) == tried;
        }
      }
      left := |existing - NumberedBelow(first, dir, stem, sep, ext, i)|;
    }
    n := i - 1;
  }

  /** The trash directory next to a file: `dirname(p)/_CuratorTrash`. */
  function TrashDir(p: string): string {
    Join(Dirname(p), "_CuratorTrash")
  }

  /** The `n`-th name `fs:trashFile` and `fs:moveFile` try in `dir`:
      the basename, then `<stem>__<n><ext>`. */
  function MoveCandidate(p: string, dir: string, n: nat): string {
    Candidate(Join(dir, Basename(p)), dir, Stem(p), "__", Extname(p), n)
  }

  /** Every name tried lies in `dir`, and the numbered ones keep the file's
      extension. */
  lemma MoveCandidateShape(p: string, dir: string, n: nat)
    ensures StartsWith(MoveCandidate(p, dir, n), JoinPrefix(dir))
    ensures n >= 1 ==> EndsWith(MoveCandidate(p, dir, n), Extname(p))
  {
    var name := if n == 0 then Basename(p) else Stem(p) + "__" + NatToString(n) + Extname(p);
    assert MoveCandidate(p, dir, n) == Join(dir, name);
    JoinIsPrefixed(dir, name);
    if n >= 1 {
      EndsWithAppended(Stem(p) + "__" + NatToString(n), Extname(p));
      EndsWithTrans(Join(dir, name), name, Extname(p));
    }
  }

  /** The first name `fs:trashFile` tries is the file's own name inside the
      trash directory. */
  lemma TrashFirstCandidateKeepsName(p: string)
    requires Basename(p) != []
    ensures Basename(MoveCandidate(p, TrashDir(p), 0)) == Basename(p)
  {
    BasenameOfJoin(TrashDir(p), Basename(p));
  }

  /** `fs:trashFile`'s destination: the first free name in the trash directory. */
  method TrashDestination(p: string, existing: set<string>) returns (dest: string, n: nat)
    ensures dest !in existing
    ensures dest == MoveCandidate(p, TrashDir(p), n)
    ensures forall k :: 0 <= k < n ==> MoveCandidate(p, TrashDir(p), k) in existing
  {
    var trashDir := Join(Dirname(p), "_CuratorTrash");
    dest, n := FirstFree(existing, Join(trashDir, Basename(p)), trashDir, Stem(p), "__", Extname(p));
  }

  /** `fs:moveFile`'s destination: the first free name in `destFolder`. */
  method MoveDestination(p: string, destFolder: string, existing: set<string>) returns (dest: string, n: nat)
    ensures dest !in existing
    ensures dest == MoveCandidate(p, destFolder, n)
    ensures forall k :: 0 <= k < n ==> MoveCandidate(p, destFolder, k) in existing
  {
    dest, n := FirstFree(existing, Join(destFolder, Basename(p)), destFolder, Stem(p), "__", Extname(p));
  }

  /** The extension step of the AI-rename reply: a name that already ends
      with `ext` (ignoring case) is kept, otherwise its own last `.ext` is
      cut and `ext` is put in its place. */
  function WithExtension(name: string, ext: string): (r: string)
    ensures EndsWithIgnoringCase(r, ext)
    ensures |ext| <= |r|
    ensures r[..|r| - |ext|] <= name
    ensures EndsWithIgnoringCase(name, ext) ==> r == name
  {
    if EndsWithIgnoringCase(name, ext) then
      assert |Lower(name)| == |name| && |Lower(ext)| == |ext|;
      name
    else
      var stripped := StripExtension(name);
      var r := stripped + ext;
      assert r[..|stripped|] == stripped;
      assert r[|stripped|..] == ext;
      EndsWithIgnoresCase(r, ext);
      r
  }

  /** The AI-rename reply turned into a file name: trimmed, quotes removed,
      and the old file's extension put back as `WithExtension` does. */
  function NormalizeReply(reply: string, oldFilename: string): (r: string)
    ensures EndsWithIgnoringCase(r, Extname(oldFilename))
    ensures |Extname(oldFilename)| <= |r|
    ensures forall k :: 0 <= k < |r| - |Extname(oldFilename)| ==> r[k] != '\'' && r[k] != '"'
    ensures var name := RemoveQuotes(Trim(reply));
      r[..|r| - |Extname(oldFilename)|] <= name
      && (EndsWithIgnoringCase(name, Extname(oldFilename)) ==> r == name)
  {
    var name := RemoveQuotes(Trim(reply));
    QuoteFree(Trim(reply));
    var ext := Extname(oldFilename);
    var r := WithExtension(name, ext);
    PrefixQuoteFree(r, name, |r| - |ext|);
    r
  }

  /** A prefix of a quote-free name is quote-free. */
  lemma PrefixQuoteFree(r: string, name: string, n: nat)
    requires n <= |r| && r[..n] <= name
    requires forall k :: 0 <= k < |name| ==> name[k] != '\'' && name[k] != '"'
    ensures forall k :: 0 <= k < n ==> r[k] != '\'' && r[k] != '"'
  {
    forall k | 0 <= k < n ensures r[k] != '\'' && r[k] != '"' {
      assert r[k] == r[..n][k] == name[k];
    }
  }

  /** What `RemoveQuotes` returns has no quote at any position. */
  lemma QuoteFree(s: string)
    ensures forall k :: 0 <= k < |RemoveQuotes(s)| ==> RemoveQuotes(s)[k] != '\'' && RemoveQuotes(s)[k] != '"'
  {
    var r := RemoveQuotes(s);
    forall k | 0 <= k < |r| ensures r[k] != '\'' && r[k] != '"' {
      assert r[k] in r;
    }
  }

  /** A quote on each side of a quote-free string is all that quote removal
      takes away. */
  lemma RemoveQuotesOfQuoted(q: char, x: string)
    requires q == '"' || q == '\''
    requires '\'' !in x && '"' !in x
    ensures RemoveQuotes([q] + x + [q]) == x
  {
    RemoveQuotesAppend([q] + x, [q]);
    RemoveQuotesAppend([q], x);
    RemoveQuotesOne(q);
    RemoveQuotesOfClean(x);
  }

  /** A reply that is already a clean name with the right extension is used as is. */
  lemma NormalizeCleanReply(name: string, oldFilename: string)
    requires name == [] || (!IsSpace(name[0]) && !IsSpace(name[|name| - 1]))
    requires '\'' !in name && '"' !in name
    requires EndsWithIgnoringCase(name, Extname(oldFilename))
    ensures NormalizeReply(name, oldFilename) == name
  {
    TrimOfTrimmed(name);
    RemoveQuotesOfClean(name);
  }

  /** A reply wrapped in one kind of quote and padded with white space is
      read as the name inside the quotes: for `Rose(1).mp3`, the reply
      `"Crimson Petals.mp3"` gives `Crimson Petals.mp3`. */
  lemma NormalizeQuotedReply(w1: string, q: char, x: string, w2: string, oldFilename: string)
    requires forall k :: 0 <= k < |w1| ==> IsSpace(w1[k])
    requires forall k :: 0 <= k < |w2| ==> IsSpace(w2[k])
    requires q == '"' || q == '\''
    requires '\'' !in x && '"' !in x
    requires x == [] || (!IsSpace(x[0]) && !IsSpace(x[|x| - 1]))
    ensures NormalizeReply(w1 + [q] + x + [q] + w2, oldFilename) == NormalizeReply(x, oldFilename)
    ensures EndsWithIgnoringCase(x, Extname(oldFilename)) ==>
      NormalizeReply(w1 + [q] + x + [q] + w2, oldFilename) == x
  {
    var m := [q] + x + [q];
    assert w1 + [q] + x + [q] + w2 == w1 + m + w2;
    TrimOfPadded(w1, m, w2);
    RemoveQuotesOfQuoted(q, x);
    TrimOfTrimmed(x);
    RemoveQuotesOfClean(x);
    assert RemoveQuotes(Trim(w1 + [q] + x + [q] + w2)) == RemoveQuotes(Trim(x));
  }

  /** Removing quotes from a string without quotes changes nothing. */
  lemma {:induction false} RemoveQuotesOfClean(s: string)
    requires '\'' !in s && '"' !in s
    ensures RemoveQuotes(s) == s
    decreases |s|
  {
    if s != [] {
      var init := s[..|s| - 1];
      RemoveQuotesOfClean(init);
      assert s == init + [s[|s| - 1]];
      FilterSnoc(init, s[|s| - 1], IsNotQuote);
    }
  }

  /** A reply with another extension gets the old one instead:
      `Crimson Petals.wav` for `Rose(1).mp3` becomes `Crimson Petals.mp3`. */
  lemma NormalizeSwapsExtension(x: string, e: string, oldFilename: string)
    requires e != [] && '.' !in e
    requires RemoveQuotes(Trim(x + "." + e)) == x + "." + e
    requires !EndsWithIgnoringCase(x + "." + e, Extname(oldFilename))
    ensures NormalizeReply(x + "." + e, oldFilename) == x + Extname(oldFilename)
  {
    StripExtensionOf(x, e);
  }

  /** The `n`-th path `ai:renameFile` tries: the new name next to the old
      file, then `<base> <n><ext>`, with `<base>` the new name with `ext` cut
      off (case-sensitively). */
  function RenameCandidate(filepath: string, newName: string, ext: string, n: nat): string {
    var dir := Dirname(filepath);
    Candidate(Join(dir, newName), dir, BasenameWithout(newName, ext), " ", ext, n)
  }

  /** The reply of `ai:renameFile`. */
  datatype RenameReply = Renamed(newPath: string, newName: string) | RenameError

  /** `ai:renameFile`: `reply` is the model's answer (`None` when the request
      or its decoding fails) and `renameOk` whether the final `renameSync`
      succeeds. On success the new path does not exist beforehand, keeps the
      old extension (ignoring case) in the name part, and is the first free
      candidate. */
  method RenameFile(filepath: string, oldFilename: string, reply: Option<string>,
                    existing: set<string>, renameOk: bool)
    returns (r: RenameReply, ghost n: nat)
    ensures reply.None? || !renameOk <==> r.RenameError?
    ensures r.Renamed? ==>
      var newName := NormalizeReply(reply.value, oldFilename);
      r.newPath !in existing
      && r.newPath == RenameCandidate(filepath, newName, Extname(oldFilename), n)
      && (forall k :: 0 <= k < n ==> RenameCandidate(filepath, newName, Extname(oldFilename), k) in existing)
      && r.newName == Basename(r.newPath)
  {
    n := 0;
    if reply.None? {
      return RenameError, n;
    }
    var newName := NormalizeReply(reply.value, oldFilename);
    var ext := Extname(oldFilename);
    var dir := Dirname(filepath);
    var newPath;
    newPath, n := FirstFree(existing, Join(dir, newName), dir, BasenameWithout(newName, ext), " ", ext);
    if !renameOk {
      return RenameError, n;
    }
    r := Renamed(newPath, Basename(newPath));
  }

  /** Every numbered rename candidate ends with the old extension. */
  lemma RenameCandidateKeepsExtension(filepath: string, newName: string, ext: string, n: nat)
    requires n >= 1
    ensures EndsWith(RenameCandidate(filepath, newName, ext, n), ext)
  {
    var dir := Dirname(filepath);
    var base := BasenameWithout(newName, ext) + " " + NatToString(n);
    assert RenameCandidate(filepath, newName, ext, n) == Join(dir, base + ext);
    EndsWithAppended(base, ext);
    EndsWithTrans(Join(dir, base + ext), base + ext, ext);
  }

  /** `wavPath.replace(/\.wav$/i, '.mp3')`. */
  function ConvertOutputPath(wavPath: string): (r: string)
    ensures IsWav(wavPath) ==> (|r| == |wavPath| && r[..|r| - 4] == wavPath[..|wavPath| - 4]
      && EndsWith(r, ".mp3"))
    ensures !IsWav(wavPath) ==> r == wavPath
  {
    if IsWav(wavPath) then wavPath[..|wavPath| - 4] + ".mp3" else wavPath
  }

  /** The output of a conversion is an MP3 path different from its input, and
      converting the output path again changes nothing. */
  lemma ConvertOutputIsMp3(wavPath: string)
    requires IsWav(wavPath)
    ensures IsMp3(ConvertOutputPath(wavPath))
    ensures ConvertOutputPath(wavPath) != wavPath
    ensures ConvertOutputPath(ConvertOutputPath(wavPath)) == ConvertOutputPath(wavPath)
  {
    var r := ConvertOutputPath(wavPath);
    LowerSuffix(r, |r| - 4);
    LowerSuffix(wavPath, |wavPath| - 4);
    assert r[|r| - 4..] == ".mp3";
    assert Lower(".mp3") == ".mp3";
    assert Lower(r)[|r| - 4..] == ".mp3";
    assert Lower(wavPath)[|wavPath| - 4..] == ".wav";
    assert Lower(r) != Lower(wavPath);
  }

  /** `qualityMap[quality]` with `qualityMap = { 0: '0', 2: '2', 4: '4' }`:
      defined for exactly those three levels, as their numeral. */
  function QualityArg(quality: int): (r: Option<string>)
    ensures r.Some? <==> quality == 0 || quality == 2 || quality == 4
    ensures r.Some? ==> quality >= 0 && r.value == NatToString(quality)
  {
    if quality == 0 then Some("0")
    else if quality == 2 then Some("2")
    else if quality == 4 then Some("4")
    else None
  }
}
