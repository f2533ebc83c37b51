/** Canonical `.i2p` hostnames. */
module Hostname {
  import opened Wrappers
  import opened Text
  import opened AddressBookErrors

  const MAX_HOSTNAME_LEN := 255
  const MAX_LABEL_LEN := 63
  const SUFFIX := ".i2p"

  predicate ValidLabel(part: string) {
    && part != []
    && |part| <= MAX_LABEL_LEN
    && part[0] != '-'
    && part[|part| - 1] != '-'
    && forall i :: 0 <= i < |part| ==> IsAlphanumeric(part[i]) || part[i] == '-'
  }

  predicate ValidLabels(labels: seq<string>) {
    forall i :: 0 <= i < |labels| ==> ValidLabel(labels[i])
  }

  /** Drops one trailing dot, if there is one. */
  function WithoutTrailingDot(s: string): string {
    if EndsWith(s, ".") then s[..|s| - 1] else s
  }

  function ParseHostname(raw: string): Result<string, Error> {
    if raw == [] || |raw| > MAX_HOSTNAME_LEN || !IsAscii(raw) then Err(InvalidHostname)
    else
      var bare := WithoutTrailingDot(Lower(raw));
      if bare == [] || |bare| > MAX_HOSTNAME_LEN || !EndsWith(bare, SUFFIX) then Err(InvalidHostname)
      else
        var body := bare[..|bare| - |SUFFIX|];
        if body == [] || !ValidLabels(Split(body, '.')) then Err(InvalidHostname)
        else Ok(body + SUFFIX)
  }

  /** A canonical name: lowercase labels joined by dots, then `.i2p`. */
  ghost predicate IsCanonical(h: string) {
    && |h| <= MAX_HOSTNAME_LEN
    && Lower(h) == h
    && exists labels: seq<string> :: labels != [] && ValidLabels(labels) && h == Join(labels, '.') + SUFFIX
  }

  lemma LabelsHaveNoDot(labels: seq<string>)
    requires ValidLabels(labels)
    ensures forall i :: 0 <= i < |labels| ==> '.' !in labels[i]
  {
  }

  lemma {:induction false} JoinedLabelsAscii(labels: seq<string>)
    requires ValidLabels(labels)
    ensures IsAscii(Join(labels, '.'))
    ensures labels != [] ==> Join(labels, '.') != []
  {
    if |labels| > 1 { JoinedLabelsAscii(labels[1..]); }
  }

  lemma LowerKeepsAscii(s: string)
    requires IsAscii(Lower(s))
    ensures IsAscii(s)
  {
    forall i | 0 <= i < |s| ensures s[i] as int < 0x80 {
      assert Lower(s)[i] == LowerChar(s[i]);
    }
  }

  lemma ParseSound(raw: string, h: string)
    requires ParseHostname(raw) == Ok(h)
    ensures IsCanonical(h) && (Lower(raw) == h || Lower(raw) == h + ".")
  {
    var lower := Lower(raw);
    var bare := WithoutTrailingDot(lower);
    var body := bare[..|bare| - |SUFFIX|];
    assert bare == body + SUFFIX == h;
    var labels := Split(body, '.');
    assert h == Join(labels, '.') + SUFFIX by { JoinSplit(body, '.'); }
    assert Lower(h) == h by {
      forall i | 0 <= i < |h| ensures LowerChar(h[i]) == h[i] { assert h[i] == lower[i]; }
    }
    assert lower == h || lower == h + ".";
  }

  lemma CanonicalBody(h: string) returns (body: string)
    requires IsCanonical(h)
    ensures h == body + SUFFIX && body != [] && ValidLabels(Split(body, '.')) && IsAscii(body)
  {
    var labels :| labels != [] && ValidLabels(labels) && h == Join(labels, '.') + SUFFIX;
    LabelsHaveNoDot(labels);
    SplitJoin(labels, '.');
    JoinedLabelsAscii(labels);
    body := Join(labels, '.');
  }

  lemma ParseOfBody(raw: string, body: string)
    requires raw != [] && |raw| <= MAX_HOSTNAME_LEN && IsAscii(raw)
    requires WithoutTrailingDot(Lower(raw)) == body + SUFFIX && |body| + 4 <= MAX_HOSTNAME_LEN
    requires body != [] && ValidLabels(Split(body, '.'))
    ensures ParseHostname(raw) == Ok(body + SUFFIX)
  {
    var bare := body + SUFFIX;
    assert bare[..|bare| - |SUFFIX|] == body;
    assert bare[|bare| - |SUFFIX|..] == SUFFIX;
  }

  lemma DotDropped(lower: string, h: string)
    requires h != [] && h[|h| - 1] != '.'
    requires lower == h || lower == h + "."
    ensures WithoutTrailingDot(lower) == h
  {
    assert lower[..|h|] == h;
  }

  lemma ParseComplete(raw: string, h: string)
    requires |raw| <= MAX_HOSTNAME_LEN && IsCanonical(h) && (Lower(raw) == h || Lower(raw) == h + ".")
    ensures ParseHostname(raw) == Ok(h)
  {
    var body := CanonicalBody(h);
    assert h[|h| - 1] == SUFFIX[3];
    DotDropped(Lower(raw), h);
    assert IsAscii(raw) by {
      assert IsAscii(Lower(raw));
      LowerKeepsAscii(raw);
    }
    ParseOfBody(raw, body);
  }

  /**
   Parsing accepts exactly the case-insensitive spellings of a canonical name, with at
   most one trailing dot and at most 255 bytes, and answers that canonical name.
   */
  lemma ParseExact(raw: string, h: string)
    ensures ParseHostname(raw) == Ok(h) <==>
            |raw| <= MAX_HOSTNAME_LEN && IsCanonical(h) && (Lower(raw) == h || Lower(raw) == h + ".")
  {
    if ParseHostname(raw) == Ok(h) { ParseSound(raw, h); }
    if |raw| <= MAX_HOSTNAME_LEN && IsCanonical(h) && (Lower(raw) == h || Lower(raw) == h + ".") {
      ParseComplete(raw, h);
    }
  }

  /** The values of the `Hostname` type: only parsing creates one. */
  predicate IsHostname(h: string) { ParseHostname(h) == Ok(h) }

  /** Canonicalization is idempotent: what parsing answers parses to itself. */
  lemma ParseIdempotent(raw: string)
    requires ParseHostname(raw).Ok?
    ensures IsHostname(ParseHostname(raw).value)
  {
    var h := ParseHostname(raw).value;
    ParseExact(raw, h);
    ParseExact(h, h);
  }
}
