/** The commit text format (lib/git/object/commit.rb): the line layout
    `_dump` writes, and the grammar `INPUT_FORMAT` reads it back with.

        tree <id>
        parent <id>            (one line per parent)
        author <name> <<email>> <seconds> <zone>
        committer <name> <<email>> <seconds> <zone>

        <message>

    Times are whole seconds since the epoch and zone offsets whole minutes
    east of UTC. */
module CommitText {
  import opened Bytes
  import opened Wrappers
  import opened Numerals

  const TREE_TAG: Bytes := Ascii("tree ")
  const PARENT_TAG: Bytes := Ascii("parent ")
  const AUTHOR_TAG: Bytes := Ascii("author ")
  const COMMITTER_TAG: Bytes := Ascii("committer ")

  const LT: byte := 60
  const GT: byte := 62
  const PLUS: byte := 43
  const MINUS: byte := 45

  datatype Person = Person(name: Bytes, email: Bytes)

  /** A moment: seconds since the epoch and the zone offset in minutes. */
  datatype Timestamp = Timestamp(seconds: int, offset: int)

  /** Everything a commit's text holds. */
  datatype CommitData = CommitData(
    tree: Bytes,
    parents: seq<Bytes>,
    author: Person,
    authoredAt: Timestamp,
    committer: Person,
    committedAt: Timestamp,
    message: Bytes)

  /** `SAFE_STRING_BOUNDARY`: any byte but space and `.,:;<>"'`. */
  predicate IsBoundary(b: byte) {
    b !in {SP, 46, 44, 58, 59, LT, GT, 34, 39}
  }

  /** `SAFE_STRING_CONTENTS`: any byte but NUL, LF, `<` and `>`. */
  predicate IsContents(b: byte) {
    b !in {NUL, LF, LT, GT}
  }

  /** `SAFE_STRING`: one boundary byte, or two boundary bytes around any
      number of content bytes. */
  predicate SafeString(s: Bytes) {
    1 <= |s| && IsBoundary(s[0]) && IsBoundary(s[|s| - 1]) &&
    forall i | 0 < i < |s| - 1 :: IsContents(s[i])
  }

  lemma SafeStringHasNoAngles(s: Bytes)
    requires SafeString(s)
    ensures LT !in s && GT !in s
  {
    forall i | 0 <= i < |s|
      ensures s[i] != LT && s[i] != GT
    {
      if 0 < i < |s| - 1 { assert IsContents(s[i]); }
    }
  }

  /** `strftime('%s')`: the seconds in decimal, with a `-` before the epoch. */
  function Seconds(s: int): (r: Bytes)
    ensures s >= 0 ==> AllDigits(r) && 1 <= |r|
    ensures s < 0 ==> 0 < |r| && r[0] == MINUS
  {
    if s < 0 then [MINUS] + Decimal(-s) else Decimal(s)
  }

  /** `format_timestamp`'s zone as intended: the sign (`+` for offsets of
      zero and above), then hours and minutes of the absolute offset, each
      as at least two digits. */
  function FormatZone(offset: int): (r: Bytes)
    ensures 5 <= |r| && (r[0] == PLUS <==> offset >= 0) && (r[0] == MINUS <==> offset < 0)
    ensures AllDigits(r[1..])
  {
    var a := if offset < 0 then -offset else offset;
    [if offset >= 0 then PLUS else MINUS] + Pad2(a / 60) + Pad2(a % 60)
  }

  /** `TZ`: a sign and four digits. */
  predicate IsZoneText(z: Bytes) {
    |z| == 5 && (z[0] == PLUS || z[0] == MINUS) && AllDigits(z[1..])
  }

  /** The offset in minutes a zone text denotes (`new_offset`). */
  function ZoneValue(z: Bytes): int
    requires IsZoneText(z)
  {
    var minutes := Value(z[1..3]) * 60 + Value(z[3..5]);
    if z[0] == PLUS then minutes else -minutes
  }

  /** A zone under 100 hours renders as zone text that denotes it again. */
  lemma FormatZoneRoundTrip(offset: int)
    requires -6000 < offset < 6000
    ensures IsZoneText(FormatZone(offset))
    ensures ZoneValue(FormatZone(offset)) == offset
  {
    var a := if offset < 0 then -offset else offset;
    var z := FormatZone(offset);
    assert z[1..3] == Pad2(a / 60);
    assert z[3..5] == Pad2(a % 60);
    ValueOfPad2(a / 60);
    ValueOfPad2(a % 60);
  }

  /** `<name> <<email>>`. */
  function Address(p: Person): Bytes {
    p.name + ([SP, LT] + (p.email + [GT]))
  }

  /** ` <seconds> <zone>` and the line end. */
  function TimeText(t: Timestamp): Bytes {
    [SP] + (Seconds(t.seconds) + ([SP] + (FormatZone(t.offset) + [LF])))
  }

  /** One `author`/`committer` line. */
  function PersonLine(tag: Bytes, p: Person, t: Timestamp): Bytes {
    tag + (Address(p) + TimeText(t))
  }

  /** One `parent` line per parent, in order. */
  function ParentLines(parents: seq<Bytes>): (r: Bytes)
    ensures |parents| == 0 <==> |r| == 0
  {
    if |parents| == 0 then [] else PARENT_TAG + (parents[0] + ([LF] + ParentLines(parents[1..])))
  }

  /** The lines after the parents: author, committer, a blank line and
      the message. */
  function Signed(c: CommitData): Bytes {
    PersonLine(AUTHOR_TAG, c.author, c.authoredAt) +
    (PersonLine(COMMITTER_TAG, c.committer, c.committedAt) + ([LF] + c.message))
  }

  /** `_dump`'s text: the format lines joined by LF. */
  function Serialize(c: CommitData): Bytes {
    TREE_TAG + (c.tree + ([LF] + (ParentLines(c.parents) + Signed(c))))
  }

  /** What the grammar can read back: ids of 40 word characters, safe
      names and e-mails, times from the epoch on, zones under 100 hours. */
  predicate WellFormed(c: CommitData) {
    IsId(c.tree) && (forall i | 0 <= i < |c.parents| :: IsId(c.parents[i])) &&
    SafeString(c.author.name) && SafeString(c.author.email) &&
    SafeString(c.committer.name) && SafeString(c.committer.email) &&
    WellTimed(c.authoredAt) && WellTimed(c.committedAt)
  }

  /** `\w{40}`. */
  predicate IsId(id: Bytes) {
    |id| == 40 && AllWordChars(id)
  }

  predicate WellTimed(t: Timestamp) {
    t.seconds >= 0 && -6000 < t.offset < 6000
  }

  // ---- reading ----

  /** The text after a literal the input starts with. */
  function Lit(s: Bytes, lit: Bytes): (r: Option<Bytes>)
    ensures r.Some? <==> |lit| <= |s| && s[..|lit|] == lit
    ensures r.Some? ==> s == lit + r.value
  {
    if |lit| <= |s| && s[..|lit|] == lit then Some(s[|lit|..]) else None
  }

  /** `\w{40}` at the start of the input. */
  function TakeId(s: Bytes): (r: Option<(Bytes, Bytes)>)
    ensures r.Some? <==> 40 <= |s| && IsId(s[..40])
    ensures r.Some? ==> IsId(r.value.0) && s == r.value.0 + r.value.1
  {
    if 40 <= |s| && IsId(s[..40]) then Some((s[..40], s[40..])) else None
  }

  /** The text before and after the first occurrence of `b`. */
  function SplitAt(s: Bytes, b: byte): (r: Option<(Bytes, Bytes)>)
    ensures r.Some? <==> b in s
    ensures r.Some? ==> s == r.value.0 + [b] + r.value.1 && b !in r.value.0
  {
    if |s| == 0 then None
    else if s[0] == b then Some(([], s[1..]))
    else match SplitAt(s[1..], b)
      case None => None
      case Some((x, rest)) =>
        assert s == [s[0]] + s[1..];
        Some(([s[0]] + x, rest))
  }

  /** `\d+` taken greedily: the longest run of digits at the start. */
  function DigitRun(s: Bytes): (r: (Bytes, Bytes))
    ensures s == r.0 + r.1 && AllDigits(r.0)
    ensures |r.1| == 0 || !IsDigit(r.1[0])
  {
    if |s| == 0 || !IsDigit(s[0]) then ([], s)
    else
      var p := DigitRun(s[1..]);
      assert s == [s[0]] + s[1..];
      assert forall i | 1 <= i < |p.0| + 1 :: ([s[0]] + p.0)[i] == p.0[i - 1];
      ([s[0]] + p.0, p.1)
  }

  /** The captures of one person line, as text. */
  datatype PersonText = PersonText(name: Bytes, email: Bytes, seconds: Bytes, zone: Bytes)

  predicate ValidPersonText(p: PersonText) {
    SafeString(p.name) && SafeString(p.email) &&
    1 <= |p.seconds| && AllDigits(p.seconds) && IsZoneText(p.zone)
  }

  /** `(SAFE_STRING) <(SAFE_STRING)>` at the start of the input. A safe
      string holds no `<` or `>`, so the name runs to the first `<` and the
      e-mail to the first `>`. */
  function TakeAddress(s: Bytes): (r: Option<(Bytes, Bytes, Bytes)>)
    ensures r.Some? ==> SafeString(r.value.0) && SafeString(r.value.1)
    ensures r.Some? ==> |r.value.2| < |s|
  {
    var p1 :- SplitAt(s, LT);
    var nameSp := p1.0;
    if |nameSp| == 0 || nameSp[|nameSp| - 1] != SP then None
    else
      var name := nameSp[..|nameSp| - 1];
      var p2 :- SplitAt(p1.1, GT);
      if !SafeString(name) || !SafeString(p2.0) then None
      else Some((name, p2.0, p2.1))
  }

  /** ` (DATE) (TZ)\n` at the start of the input. */
  function TakeTime(s: Bytes): (r: Option<(Bytes, Bytes, Bytes)>)
    ensures r.Some? ==> 1 <= |r.value.0| && AllDigits(r.value.0) && IsZoneText(r.value.1)
    ensures r.Some? ==> |r.value.2| < |s|
  {
    var r1 :- Lit(s, [SP]);
    var p2 := DigitRun(r1);
    var r3 :- Lit(p2.1, [SP]);
    if |p2.0| == 0 || |r3| < 5 || !IsZoneText(r3[..5]) then None
    else
      var r4 :- Lit(r3[5..], [LF]);
      Some((p2.0, r3[..5], r4))
  }

  /** One `<tag>(SAFE_STRING) <(SAFE_STRING)> (DATE) (TZ)\n` line at the
      start of the input. */
  function TakePerson(s: Bytes, tag: Bytes): (r: Option<(PersonText, Bytes)>)
    ensures r.Some? ==> ValidPersonText(r.value.0)
    ensures r.Some? ==> |r.value.1| < |s|
  {
    var r1 :- Lit(s, tag);
    var a :- TakeAddress(r1);
    var t :- TakeTime(a.2);
    Some((PersonText(a.0, a.1, t.0, t.1), t.2))
  }

  /** `(?:parent (\w{40})\n)*`, taken greedily. */
  function TakeParents(s: Bytes): (r: (seq<Bytes>, Bytes))
    ensures forall i | 0 <= i < |r.0| :: IsId(r.0[i])
    ensures |r.1| <= |s|
    decreases |s|
  {
    match Lit(s, PARENT_TAG)
    case None => ([], s)
    case Some(r1) =>
      match TakeId(r1)
      case None => ([], s)
      case Some((id, r2)) =>
        match Lit(r2, [LF])
        case None => ([], s)
        case Some(r3) =>
          var (ids, rest) := TakeParents(r3);
          ([id] + ids, rest)
  }

  /** All the captures of `INPUT_FORMAT`, with the text after the match. */
  datatype Captures = Captures(
    tree: Bytes,
    parents: seq<Bytes>,
    author: PersonText,
    committer: PersonText,
    message: Bytes)

  predicate ValidCaptures(m: Captures) {
    IsId(m.tree) && (forall i | 0 <= i < |m.parents| :: IsId(m.parents[i])) &&
    ValidPersonText(m.author) && ValidPersonText(m.committer)
  }

  /** `INPUT_FORMAT` matched at the start of a dump, every repetition of
      the parent line kept. */
  function Match(s: Bytes): (r: Option<Captures>)
    ensures r.Some? ==> ValidCaptures(r.value)
    ensures r.Some? ==> |r.value.message| < |s|
  {
    var r1 :- Lit(s, TREE_TAG);
    var p2 :- TakeId(r1);
    var r3 :- Lit(p2.1, [LF]);
    var (parents, r4) := TakeParents(r3);
    var signed :- TakeSigned(r4);
    Some(Captures(p2.0, parents, signed.0, signed.1, signed.2))
  }

  /** The author and committer lines, the blank line, and the message. */
  function TakeSigned(s: Bytes): (r: Option<(PersonText, PersonText, Bytes)>)
    ensures r.Some? ==> ValidPersonText(r.value.0) && ValidPersonText(r.value.1)
    ensures r.Some? ==> |r.value.2| < |s|
  {
    var p1 :- TakePerson(s, AUTHOR_TAG);
    var p2 :- TakePerson(p1.1, COMMITTER_TAG);
    var message :- Lit(p2.1, [LF]);
    Some((p1.0, p2.0, message))
  }

  /** `parse_timestamp`. */
  function ParseTimestamp(p: PersonText): Timestamp
    requires ValidPersonText(p)
  {
    Timestamp(Value(p.seconds), ZoneValue(p.zone))
  }

  /** A commit's text read back with the grammar. */
  function Parse(s: Bytes): (r: Option<CommitData>)
    ensures r.Some? ==> IsId(r.value.tree) && forall i | 0 <= i < |r.value.parents| :: IsId(r.value.parents[i])
    ensures r.Some? ==> SafeString(r.value.author.name) && SafeString(r.value.author.email)
    ensures r.Some? ==> SafeString(r.value.committer.name) && SafeString(r.value.committer.email)
    ensures r.Some? ==> r.value.authoredAt.seconds >= 0 && r.value.committedAt.seconds >= 0
  {
    var m :- Match(s);
    Some(CommitData(m.tree, m.parents,
      Person(m.author.name, m.author.email), ParseTimestamp(m.author),
      Person(m.committer.name, m.committer.email), ParseTimestamp(m.committer),
      m.message))
  }

  /** The text `_dump` writes for each capture. */
  function PersonTextOf(p: Person, t: Timestamp): PersonText {
    PersonText(p.name, p.email, Seconds(t.seconds), FormatZone(t.offset))
  }

  // ---- the round trip ----

  lemma LitPrefix(lit: Bytes, rest: Bytes)
    ensures Lit(lit + rest, lit) == Some(rest)
  {
    assert (lit + rest)[..|lit|] == lit;
  }

  lemma TakeIdPrefix(id: Bytes, rest: Bytes)
    requires IsId(id)
    ensures TakeId(id + rest) == Some((id, rest))
  {
    assert (id + rest)[..40] == id;
  }

  lemma {:induction false} SplitAtPrefix(x: Bytes, b: byte, rest: Bytes)
    requires b !in x
    ensures SplitAt(x + [b] + rest, b) == Some((x, rest))
  {
    var s := x + [b] + rest;
    if |x| > 0 {
      assert s[1..] == x[1..] + [b] + rest;
      SplitAtPrefix(x[1..], b, rest);
      assert [s[0]] + x[1..] == x;
    } else {
      assert s[1..] == rest;
    }
  }

  lemma {:induction false} DigitRunPrefix(d: Bytes, rest: Bytes)
    requires AllDigits(d)
    requires |rest| == 0 || !IsDigit(rest[0])
    ensures DigitRun(d + rest) == (d, rest)
  {
    var s := d + rest;
    if |d| > 0 {
      assert s[1..] == d[1..] + rest;
      DigitRunPrefix(d[1..], rest);
      assert [s[0]] + d[1..] == d;
    } else {
      assert s == rest;
    }
  }

  lemma TakeAddressOf(p: Person, rest: Bytes)
    requires SafeString(p.name) && SafeString(p.email)
    ensures TakeAddress(Address(p) + rest) == Some((p.name, p.email, rest))
  {
    var name, email := p.name, p.email;
    var nameSp := name + [SP];
    var r2 := email + ([GT] + rest);
    assert SplitAt(Address(p) + rest, LT) == Some((nameSp, r2)) by {
      SafeStringHasNoAngles(name);
      AddressShape(name, email, rest);
      SplitAtPrefix(nameSp, LT, r2);
    }
    assert SplitAt(r2, GT) == Some((email, rest)) by {
      SafeStringHasNoAngles(email);
      Regroup(email, [GT], rest);
      SplitAtPrefix(email, GT, rest);
    }
    assert nameSp[..|nameSp| - 1] == name;
  }

  /** An address line split around its `<`. */
  lemma AddressShape(name: Bytes, email: Bytes, rest: Bytes)
    ensures Address(Person(name, email)) + rest == name + [SP] + [LT] + (email + ([GT] + rest))
  {
    Regroup(name, [SP, LT] + (email + [GT]), rest);
    Regroup([SP, LT], email + [GT], rest);
    Regroup(email, [GT], rest);
    assert [SP, LT] == [SP] + [LT];
    Regroup([SP], [LT], email + ([GT] + rest));
    Regroup(name, [SP], [LT] + (email + ([GT] + rest)));
    Regroup(name + [SP], [LT], email + ([GT] + rest));
  }

  lemma TakeTimeOf(t: Timestamp, rest: Bytes)
    requires WellTimed(t)
    ensures TakeTime(TimeText(t) + rest) == Some((Seconds(t.seconds), FormatZone(t.offset), rest))
  {
    var secs := Seconds(t.seconds);
    var zone := FormatZone(t.offset);
    FormatZoneRoundTrip(t.offset);
    var r3 := zone + ([LF] + rest);
    assert TimeText(t) + rest == [SP] + (secs + ([SP] + r3));
    LitPrefix([SP], secs + ([SP] + r3));
    DigitRunPrefix(secs, [SP] + r3);
    LitPrefix([SP], r3);
    assert r3[..5] == zone;
    assert r3[5..] == [LF] + rest;
    LitPrefix([LF], rest);
  }

  /** A well-formed person line is read back into its own text. */
  lemma TakePersonLine(tag: Bytes, p: Person, t: Timestamp, rest: Bytes)
    requires SafeString(p.name) && SafeString(p.email) && WellTimed(t)
    ensures TakePerson(PersonLine(tag, p, t) + rest, tag) == Some((PersonTextOf(p, t), rest))
  {
    var timeText := TimeText(t) + rest;
    var r1 := Address(p) + timeText;
    var s := PersonLine(tag, p, t) + rest;
    assert Lit(s, tag) == Some(r1) by {
      Regroup(tag, Address(p) + TimeText(t), rest);
      Regroup(Address(p), TimeText(t), rest);
      LitPrefix(tag, r1);
    }
    assert TakeAddress(r1) == Some((p.name, p.email, timeText)) by {
      TakeAddressOf(p, timeText);
    }
    assert TakeTime(timeText) == Some((Seconds(t.seconds), FormatZone(t.offset), rest)) by {
      TakeTimeOf(t, rest);
    }
    TakePersonSteps(s, tag, r1, (p.name, p.email, timeText), (Seconds(t.seconds), FormatZone(t.offset), rest));
  }

  /** `TakePerson` from the results of its three steps. */
  lemma TakePersonSteps(s: Bytes, tag: Bytes, r1: Bytes, a: (Bytes, Bytes, Bytes), t: (Bytes, Bytes, Bytes))
    requires Lit(s, tag) == Some(r1)
    requires TakeAddress(r1) == Some(a)
    requires TakeTime(a.2) == Some(t)
    ensures TakePerson(s, tag) == Some((PersonText(a.0, a.1, t.0, t.1), t.2))
  {
  }

  lemma {:induction false} TakeParentLines(parents: seq<Bytes>, rest: Bytes)
    requires forall i | 0 <= i < |parents| :: IsId(parents[i])
    requires Lit(rest, PARENT_TAG).None?
    ensures TakeParents(ParentLines(parents) + rest) == (parents, rest)
  {
    if |parents| > 0 {
      var tail := ParentLines(parents[1..]) + rest;
      var s := PARENT_TAG + (parents[0] + ([LF] + tail));
      assert ParentLines(parents) + rest == s;
      LitPrefix(PARENT_TAG, parents[0] + ([LF] + tail));
      TakeIdPrefix(parents[0], [LF] + tail);
      LitPrefix([LF], tail);
      TakeParentLines(parents[1..], rest);
      assert [parents[0]] + parents[1..] == parents;
    } else {
      assert ParentLines(parents) + rest == rest;
    }
  }

  /** The author line does not start like a parent line. */
  lemma AuthorIsNotParent(t: Timestamp, p: Person, rest: Bytes)
    ensures Lit(PersonLine(AUTHOR_TAG, p, t) + rest, PARENT_TAG).None?
  {
    var s := PersonLine(AUTHOR_TAG, p, t) + rest;
    assert AUTHOR_TAG == [97, 117, 116, 104, 111, 114, 32];
    assert PARENT_TAG == [112, 97, 114, 101, 110, 116, 32];
    assert s[0] == 97;
  }

  /** The author line, the committer line and the message are read back
      from the text `_dump` writes after the parent lines. */
  lemma TakeSignedOf(c: CommitData)
    requires WellFormed(c)
    ensures TakeSigned(Signed(c)) == Some((PersonTextOf(c.author, c.authoredAt),
      PersonTextOf(c.committer, c.committedAt), c.message))
  {
    var tail := [LF] + c.message;
    var r5 := PersonLine(COMMITTER_TAG, c.committer, c.committedAt) + tail;
    var a := PersonTextOf(c.author, c.authoredAt);
    var m := PersonTextOf(c.committer, c.committedAt);
    assert TakePerson(Signed(c), AUTHOR_TAG) == Some((a, r5)) by {
      TakePersonLine(AUTHOR_TAG, c.author, c.authoredAt, r5);
    }
    assert TakePerson(r5, COMMITTER_TAG) == Some((m, tail)) by {
      TakePersonLine(COMMITTER_TAG, c.committer, c.committedAt, tail);
    }
    assert Lit(tail, [LF]) == Some(c.message) by {
      LitPrefix([LF], c.message);
    }
    TakeSignedSteps(Signed(c), (a, r5), (m, tail), c.message);
  }

  /** `TakeSigned` from the results of its three steps. */
  lemma TakeSignedSteps(s: Bytes, p1: (PersonText, Bytes), p2: (PersonText, Bytes), message: Bytes)
    requires TakePerson(s, AUTHOR_TAG) == Some(p1)
    requires TakePerson(p1.1, COMMITTER_TAG) == Some(p2)
    requires Lit(p2.1, [LF]) == Some(message)
    ensures TakeSigned(s) == Some((p1.0, p2.0, message))
  {
  }

  /** Reading `_dump`'s text with the grammar captures exactly what was
      written: the ids, every parent in order, names, e-mails, the rendered
      times and zones, and the message verbatim. */
  lemma MatchSerialize(c: CommitData)
    requires WellFormed(c)
    ensures Match(Serialize(c)) == Some(Captures(c.tree, c.parents,
      PersonTextOf(c.author, c.authoredAt), PersonTextOf(c.committer, c.committedAt), c.message))
  {
    var r4 := Signed(c);
    var r3 := ParentLines(c.parents) + r4;
    var r2 := [LF] + r3;
    var r1 := c.tree + r2;
    var s := Serialize(c);
    assert Lit(s, TREE_TAG) == Some(r1) by {
      assert s == TREE_TAG + r1;
      LitPrefix(TREE_TAG, r1);
    }
    assert TakeId(r1) == Some((c.tree, r2)) by {
      TakeIdPrefix(c.tree, r2);
    }
    assert Lit(r2, [LF]) == Some(r3) by {
      LitPrefix([LF], r3);
    }
    assert TakeParents(r3) == (c.parents, r4) by {
      AuthorIsNotParent(c.authoredAt, c.author,
        PersonLine(COMMITTER_TAG, c.committer, c.committedAt) + ([LF] + c.message));
      TakeParentLines(c.parents, r4);
    }
    TakeSignedOf(c);
    MatchSteps(s, r1, (c.tree, r2), r3, (c.parents, r4),
      (PersonTextOf(c.author, c.authoredAt), PersonTextOf(c.committer, c.committedAt), c.message));
  }

  /** `Match` from the results of its five steps. */
  lemma MatchSteps(s: Bytes, r1: Bytes, p2: (Bytes, Bytes), r3: Bytes, p4: (seq<Bytes>, Bytes),
                   signed: (PersonText, PersonText, Bytes))
    requires Lit(s, TREE_TAG) == Some(r1)
    requires TakeId(r1) == Some(p2)
    requires Lit(p2.1, [LF]) == Some(r3)
    requires TakeParents(r3) == p4
    requires TakeSigned(p4.1) == Some(signed)
    ensures Match(s) == Some(Captures(p2.0, p4.0, signed.0, signed.1, signed.2))
  {
  }

  /** Parsing a rendered time gives the time back. */
  lemma ParseTimestampOf(p: Person, t: Timestamp)
    requires WellTimed(t)
    ensures ValidPersonText(PersonTextOf(p, t)) || !SafeString(p.name) || !SafeString(p.email)
    ensures SafeString(p.name) && SafeString(p.email) ==> ParseTimestamp(PersonTextOf(p, t)) == t
  {
    FormatZoneRoundTrip(t.offset);
    ValueOfDecimal(t.seconds);
  }

  /** `_load` of `_dump`'s text recovers the commit. */
  lemma ParseSerialize(c: CommitData)
    requires WellFormed(c)
    ensures Parse(Serialize(c)) == Some(c)
  {
    MatchSerialize(c);
    ParseTimestampOf(c.author, c.authoredAt);
    ParseTimestampOf(c.committer, c.committedAt);
  }
}
