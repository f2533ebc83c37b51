/** Package paths, reserved device names, digests and hostnames, as text. */
module NameText {
  import opened Text
  import opened Payload
  import opened Hostname

  predicate PlainChar(c: char) { 'a' <= c <= 'z' || 'A' <= c <= 'Z' || '0' <= c <= '9' }

  // ----- package paths -----

  ghost predicate Component(part: string) {
    part !in {"", ".", ".."} && forall c :: c in part ==> PlainChar(c) || c in {'.', '_', '-'}
  }

  /** A path is one to 512 bytes: good components separated by single slashes. */
  lemma PathExact(path: string)
    ensures ValidPath(path) <==>
      |path| <= 512 && exists parts: seq<string> ::
        parts != [] && path == Join(parts, '/') && forall p :: p in parts ==> Component(p)
  {
    hide Split, Join, Component, PathByte;
    if ValidPath(path) {
      var parts := Split(path, '/');
      JoinSplit(path, '/');
      forall p | p in parts ensures Component(p) {
        var i :| 0 <= i < |parts| && parts[i] == p;
        SplitPart(path, '/', i);
        GoodComponent(path, p);
      }
    }
    if |path| <= 512 && exists parts: seq<string> ::
        parts != [] && path == Join(parts, '/') && forall p :: p in parts ==> Component(p) {
      var parts: seq<string> :| parts != [] && path == Join(parts, '/') && forall p :: p in parts ==> Component(p);
      forall i | 0 <= i < |parts| ensures '/' !in parts[i] && parts[i] !in {"", ".", ".."} {
        assert parts[i] in parts;
        ComponentText(parts[i]);
      }
      SplitJoin(parts, '/');
      JoinedPath(parts);
    }
  }

  /** Every part of a split is drawn from the whole and free of the separator. */
  lemma {:induction false} SplitPart(s: string, c: char, i: nat)
    requires i < |Split(s, c)|
    ensures c !in Split(s, c)[i] && forall x :: x in Split(s, c)[i] ==> x in s
  {
    if s != [] {
      var rest := Split(s[1..], c);
      if s[0] == c {
        if i > 0 { SplitPart(s[1..], c, i - 1); }
      } else {
        SplitPart(s[1..], c, i);
        if i == 0 { assert Split(s, c)[0] == [s[0]] + rest[0]; }
      }
    }
  }

  lemma GoodComponent(path: string, part: string)
    requires forall i :: 0 <= i < |path| ==> PathByte(path[i])
    requires part !in {"", ".", ".."} && '/' !in part && forall x :: x in part ==> x in path
    ensures Component(part)
  {
    forall c | c in part ensures PlainChar(c) || c in {'.', '_', '-'} {
      var i :| 0 <= i < |path| && path[i] == c;
      assert c != '/';
    }
  }

  lemma ComponentText(part: string)
    requires Component(part)
    ensures '/' !in part && part !in {"", ".", ".."}
    ensures forall c :: c in part ==> PathByte(c)
  {
  }

  lemma {:induction false} JoinedPath(parts: seq<string>)
    requires parts != [] && forall p :: p in parts ==> Component(p)
    ensures Join(parts, '/') != []
    ensures forall i :: 0 <= i < |Join(parts, '/')| ==> PathByte(Join(parts, '/')[i])
  {
    hide Component, PathByte;
    var joined := Join(parts, '/');
    assert parts[0] in parts;
    ComponentText(parts[0]);
    assert forall i :: 0 <= i < |parts[0]| ==> parts[0][i] in parts[0];
    if |parts| > 1 {
      forall p | p in parts[1..] ensures p in parts { }
      JoinedPath(parts[1..]);
      SlashAllowed();
    }
  }

  lemma SlashAllowed()
    ensures PathByte('/')
  {
  }

  // ----- device names -----

  /** `head1` to `head9`. */
  function Ports(head: string): set<string> { set d | d in "123456789" :: head + [d] }

  /** The twenty-two reserved names. */
  const DEVICES: set<string> := {"con", "prn", "aux", "nul"} + Ports("com") + Ports("lpt")

  lemma FoldChar(c: char, up: char)
    requires IsUpper(up) || IsDigit(up)
    ensures Upper(c) == up <==> LowerChar(c) == LowerChar(up)
  {
  }

  /** A stem folds up to a word exactly when it folds down to the word in small letters. */
  lemma FoldWord(stem: string, word: string)
    requires forall i :: 0 <= i < |word| ==> IsUpper(word[i]) || IsDigit(word[i])
    ensures seq(|stem|, i requires 0 <= i < |stem| => Upper(stem[i])) == word <==> Lower(stem) == Lower(word)
  {
    hide LowerChar, Upper;
    var up := seq(|stem|, i requires 0 <= i < |stem| => Upper(stem[i]));
    if |stem| == |word| {
      forall i | 0 <= i < |stem| ensures up[i] == word[i] <==> Lower(stem)[i] == Lower(word)[i] { FoldChar(stem[i], word[i]); }
    }
    assert up == word <==> |stem| == |word| && forall i :: 0 <= i < |stem| ==> up[i] == word[i];
    assert Lower(stem) == Lower(word) <==> |stem| == |word| && forall i :: 0 <= i < |stem| ==> Lower(stem)[i] == Lower(word)[i];
  }

  lemma Words()
    ensures Lower("CON") == "con" && Lower("PRN") == "prn" && Lower("AUX") == "aux" && Lower("NUL") == "nul"
    ensures Lower("COM") == "com" && Lower("LPT") == "lpt"
  {
  }

  /** The stem test, with the device spelled out. */
  lemma StemExact(stem: string)
    ensures DeviceStem(stem) <==> Lower(stem) in DEVICES
  {
    var up := seq(|stem|, i requires 0 <= i < |stem| => Upper(stem[i]));
    Words();
    FoldWord(stem, "CON");
    FoldWord(stem, "PRN");
    FoldWord(stem, "AUX");
    FoldWord(stem, "NUL");
    PortStem(stem, up, "COM", "com");
    PortStem(stem, up, "LPT", "lpt");
  }

  lemma PortStem(stem: string, up: string, head: string, small: string)
    requires up == seq(|stem|, i requires 0 <= i < |stem| => Upper(stem[i]))
    requires |head| == 3 && (forall i :: 0 <= i < 3 ==> IsUpper(head[i])) && Lower(head) == small
    ensures |up| == 4 && up[..3] == head && '1' <= up[3] <= '9' <==> Lower(stem) in Ports(small)
  {
    hide Lower;
    forall d | '1' <= d <= '9' ensures up == head + [d] <==> Lower(stem) == small + [d] {
      FoldWord(stem, head + [d]);
      assert Lower(head + [d]) == small + [d];
    }
    if |up| == 4 && up[..3] == head && '1' <= up[3] <= '9' {
      assert up == head + [up[3]];
      assert "123456789"[up[3] as int - '1' as int] == up[3];
    }
    if Lower(stem) in Ports(small) {
      var d :| d in "123456789" && Lower(stem) == small + [d];
      assert up == head + [d];
    }
  }

  /** The text before the first dot. */
  ghost predicate StemOf(part: string, stem: string) {
    '.' !in stem && (part == stem || (|stem| < |part| && part[..|stem|] == stem && part[|stem|] == '.'))
  }

  lemma {:induction false} FirstPart(s: string)
    ensures StemOf(s, Split(s, '.')[0])
  {
    if s != [] && s[0] != '.' {
      hide StemOf;
      FirstPart(s[1..]);
      assert s == [s[0]] + s[1..];
      StemGrows(s[0], s[1..], Split(s[1..], '.')[0]);
    }
  }

  lemma StemGrows(c: char, part: string, stem: string)
    requires c != '.' && StemOf(part, stem)
    ensures StemOf([c] + part, [c] + stem)
  {
    if part != stem { assert ([c] + part)[..|stem| + 1] == [c] + part[..|stem|]; }
  }

  lemma StemUnique(part: string, a: string, b: string)
    requires StemOf(part, a) && StemOf(part, b)
    ensures a == b
  {
  }

  /** A path is reserved exactly when the stem of one of its components is a device name, in any case. */
  lemma ReservedExact(path: string, parts: seq<string>)
    requires parts != [] && path == Join(parts, '/') && forall i :: 0 <= i < |parts| ==> '/' !in parts[i]
    ensures Reserved(path) <==> exists p, stem :: p in parts && StemOf(p, stem) && Lower(stem) in DEVICES
  {
    hide Split, Join, Lower, StemOf, DeviceStem, DEVICES;
    SplitJoin(parts, '/');
    if Reserved(path) {
      var i :| 0 <= i < |parts| && DeviceStem(Split(parts[i], '.')[0]);
      FirstPart(parts[i]);
      StemExact(Split(parts[i], '.')[0]);
      assert parts[i] in parts;
    }
    if p, stem :| p in parts && StemOf(p, stem) && Lower(stem) in DEVICES {
      var i :| 0 <= i < |parts| && parts[i] == p;
      FirstPart(p);
      StemUnique(p, stem, Split(p, '.')[0]);
      StemExact(stem);
    }
  }

  // ----- digests and hostname labels -----

  lemma DigestExact(s: string)
    ensures IsDigest(s) <==> |s| == 64 && forall c :: c in s ==> '0' <= c <= '9' || 'a' <= c <= 'f'
  {
    assert forall i :: 0 <= i < |s| ==> s[i] in s;
  }

  /** A label is up to 63 letters, digits and hyphens, with a letter or digit at both ends. */
  lemma HostLabelExact(part: string)
    ensures ValidLabel(part) <==>
      && 1 <= |part| <= 63
      && (forall c :: c in part ==> PlainChar(c) || c == '-')
      && PlainChar(part[0]) && PlainChar(part[|part| - 1])
  {
    assert forall i :: 0 <= i < |part| ==> part[i] in part;
  }
}
