/** The commit codec as lib/git/object/commit.rb writes it, where it
    departs from the format it documents: `_load` reads fields out of
    `String#split`, which matches `INPUT_FORMAT` wherever a line starts and
    keeps one capture per group, and `format_timestamp` signs a zero offset
    with `-`. The rest of the model uses `Commit.LoadFields` and
    `CommitText.FormatZone`. */
module CommitAsWritten {
  import opened Bytes
  import opened Wrappers
  import opened Numerals
  import opened CommitText
  import opened Commit
  import CanonicalForm

  /** `format_timestamp`'s zone as written: `+` only for offsets above 0. */
  function FormatZoneAsWritten(offset: int): (r: Bytes)
    ensures offset != 0 ==> r == FormatZone(offset)
    ensures offset == 0 ==> 0 < |r| && r[0] == MINUS
  {
    var a := if offset < 0 then -offset else offset;
    [if offset > 0 then PLUS else MINUS] + Pad2(a / 60) + Pad2(a % 60)
  }

  /** A zero offset is written `-0000`, where git writes `+0000`; both
      denote the same offset. */
  lemma ZeroZoneAsWritten()
    ensures FormatZoneAsWritten(0) == [MINUS, 48, 48, 48, 48]
    ensures FormatZone(0) == [PLUS, 48, 48, 48, 48]
    ensures IsZoneText(FormatZoneAsWritten(0)) && ZoneValue(FormatZoneAsWritten(0)) == ZoneValue(FormatZone(0)) == 0
  {
    assert Pad2(0) == [48, 48];
    FormatZoneRoundTrip(0);
  }

  // ---- split ----

  function PersonFields(p: PersonText): seq<Bytes> {
    [p.name, p.email, p.seconds, p.zone]
  }

  /** The last parent, as a list of at most one. */
  function LastParent(parents: seq<Bytes>): seq<Bytes> {
    if |parents| == 0 then [] else [parents[|parents| - 1]]
  }

  /** What one match adds to `split`'s result: each group's last
      repetition, and nothing for the parent group when no parent line
      took part. */
  function Groups(m: Captures): seq<Bytes> {
    [m.tree] + LastParent(m.parents) + PersonFields(m.author) + PersonFields(m.committer)
  }

  /** A pattern matched at the start of a text: its captures and the text
      after the match. `_load` splits with `INPUT_FORMAT`, which is
      `CommitText.Match`; `split` itself is described for any pattern. */
  type Pattern = Bytes -> Option<Captures>

  /** Every match takes some text, and its last group (the committer's
      zone) is not empty. */
  ghost predicate Consumes(find: Pattern) {
    forall t :: find(t).Some? ==> |find(t).value.message| < |t| && |find(t).value.committer.zone| == 5
  }

  lemma MatchConsumes()
    ensures Consumes(Match)
  {
    forall t | Match(t).Some?
      ensures |Match(t).value.message| < |t| && |Match(t).value.committer.zone| == 5
    {
    }
  }

  /** The search `split` makes from position `i` on: the leftmost line
      start (`^`) where the pattern matches. */
  function NextMatch(find: Pattern, s: Bytes, i: nat): (r: Option<nat>)
    requires i <= |s|
    ensures r.Some? ==> i <= r.value <= |s| && CanonicalForm.LineStart(s, r.value) && find(s[r.value..]).Some?
    ensures forall p | i <= p <= |s| && (r.None? || p < r.value) && CanonicalForm.LineStart(s, p) ::
      find(s[p..]).None?
    decreases |s| - i
  {
    if CanonicalForm.LineStart(s, i) && find(s[i..]).Some? then Some(i)
    else if i == |s| then None
    else NextMatch(find, s, i + 1)
  }

  /** Where a match starting at `p` ends. */
  function MatchEnd(find: Pattern, s: Bytes, p: nat): (e: nat)
    requires Consumes(find) && p <= |s| && find(s[p..]).Some?
    ensures p < e <= |s|
  {
    |s| - |find(s[p..]).value.message|
  }

  /** `split` from position `i` on: the text up to the next match, that
      match's groups, and the same again after it; the text after the
      last match closes the list. */
  function SplitFrom(find: Pattern, s: Bytes, i: nat): (r: seq<Bytes>)
    requires Consumes(find) && i <= |s|
    decreases |s| - i
  {
    match NextMatch(find, s, i)
    case None => [s[i..]]
    case Some(p) => [s[i..p]] + Groups(find(s[p..]).value) + SplitFrom(find, s, MatchEnd(find, s, p))
  }

  /** `split` drops the empty strings at the end of its result. */
  function DropTrailingEmpty(xs: seq<Bytes>): (r: seq<Bytes>)
    ensures |r| <= |xs| && r == xs[..|r|]
    ensures |r| == 0 || |r[|r| - 1]| > 0
    ensures forall i | |r| <= i < |xs| :: xs[i] == []
  {
    if |xs| == 0 || |xs[|xs| - 1]| > 0 then xs else DropTrailingEmpty(xs[..|xs| - 1])
  }

  /** Pieces before a non-empty one are never dropped. */
  lemma {:induction false} DropTrailingKeeps(xs: seq<Bytes>, ys: seq<Bytes>)
    requires |xs| > 0 && |xs[|xs| - 1]| > 0
    ensures DropTrailingEmpty(xs + ys) == xs + DropTrailingEmpty(ys)
    decreases |ys|
  {
    if |ys| == 0 {
      assert xs + ys == xs;
    } else if |ys[|ys| - 1]| == 0 {
      assert (xs + ys)[..|xs + ys| - 1] == xs + ys[..|ys| - 1];
      DropTrailingKeeps(xs, ys[..|ys| - 1]);
    }
  }

  /** The pieces of a text with a match: the text before it, its groups,
      then the pieces after it. */
  lemma SplitShape(find: Pattern, s: Bytes)
    requires Consumes(find)
    ensures NextMatch(find, s, 0).None? ==> |DropTrailingEmpty(SplitFrom(find, s, 0))| <= 1
    ensures NextMatch(find, s, 0).Some? ==>
      var p := NextMatch(find, s, 0).value;
      DropTrailingEmpty(SplitFrom(find, s, 0)) ==
        [s[..p]] + (Groups(find(s[p..]).value) + DropTrailingEmpty(SplitFrom(find, s, MatchEnd(find, s, p))))
  {
    if NextMatch(find, s, 0).Some? {
      var p := NextMatch(find, s, 0).value;
      var m := find(s[p..]).value;
      var rest := SplitFrom(find, s, MatchEnd(find, s, p));
      DropTrailingKeeps([s[..p]] + Groups(m), rest);
      Regroup([s[..p]], Groups(m), DropTrailingEmpty(rest));
    }
  }

  /** `dump.split(pattern)` followed by `fields.shift`: the text before
      the first match is shifted off, so the list is the groups of the
      first match and the pieces after it. Without a match nothing is
      left. */
  function SplitAsWritten(find: Pattern, s: Bytes): (r: seq<Bytes>)
    requires Consumes(find)
    ensures NextMatch(find, s, 0).None? ==> r == []
    ensures NextMatch(find, s, 0).Some? ==>
      var p := NextMatch(find, s, 0).value;
      r == Groups(find(s[p..]).value) + DropTrailingEmpty(SplitFrom(find, s, MatchEnd(find, s, p)))
    ensures NextMatch(find, s, 0).Some? ==> 9 <= |r|
  {
    SplitShape(find, s);
    var pieces := DropTrailingEmpty(SplitFrom(find, s, 0));
    if |pieces| == 0 then [] else pieces[1..]
  }

  /** A text made of `w`, a newline and `m` ends with `m` after that
      newline. */
  lemma EndsWith(s: Bytes, w: Bytes, m: Bytes)
    requires s == w + ([LF] + m)
    ensures |m| < |s| && s[|s| - |m| - 1] == LF && s[|s| - |m|..] == m
  {
  }

  /** No line of `message` starts a text `find` matches. */
  ghost predicate NoLineMatch(find: Pattern, message: Bytes) {
    forall q | 0 <= q <= |message| && CanonicalForm.LineStart(message, q) :: find(message[q..]).None?
  }

  /** A text that ends with a newline and `message`: the search from
      where `message` starts finds nothing when no line of `message`
      starts a match. */
  lemma NoMatchAfter(find: Pattern, s: Bytes, message: Bytes)
    requires |message| < |s| && s[|s| - |message| - 1] == LF && s[|s| - |message|..] == message
    requires NoLineMatch(find, message)
    ensures NextMatch(find, s, |s| - |message|).None?
  {
    var e := |s| - |message|;
    forall p | e <= p <= |s| && CanonicalForm.LineStart(s, p)
      ensures find(s[p..]).None?
    {
      var q := p - e;
      assert s[p..] == message[q..];
      assert CanonicalForm.LineStart(message, q);
    }
  }

  /** A text that matches at its start, leaving a message after a
      newline (`w` is what comes before it) with no match at any of its
      line starts, splits into the
      groups, then the message unless it is empty. */
  lemma SplitOfOneMatch(find: Pattern, s: Bytes, w: Bytes, m: Captures)
    requires Consumes(find) && find(s) == Some(m) && s == w + ([LF] + m.message)
    requires NoLineMatch(find, m.message)
    ensures SplitAsWritten(find, s) == Groups(m) + (if |m.message| == 0 then [] else [m.message])
  {
    EndsWith(s, w, m.message);
    var e := |s| - |m.message|;
    NoMatchAfter(find, s, m.message);
    assert s[0..] == s;
    assert NextMatch(find, s, 0) == Some(0);
    assert MatchEnd(find, s, 0) == e;
    assert SplitAsWritten(find, s) == Groups(m) + DropTrailingEmpty(SplitFrom(find, s, e));
    assert SplitFrom(find, s, e) == [m.message];
    assert DropTrailingEmpty([m.message]) == if |m.message| == 0 then [] else [m.message];
  }

  /** A text that matches at its start, leaving a message after a
      newline with a match at its line start `q`, splits into at least
      the groups of both matches and the text between them. */
  lemma SplitOfTwoMatches(find: Pattern, s: Bytes, w: Bytes, m: Captures, q: nat)
    requires Consumes(find) && find(s) == Some(m) && s == w + ([LF] + m.message)
    requires q <= |m.message| && CanonicalForm.LineStart(m.message, q) && find(m.message[q..]).Some?
    ensures 19 <= |SplitAsWritten(find, s)|
  {
    EndsWith(s, w, m.message);
    var e := |s| - |m.message|;
    var p2 := e + q;
    assert s[p2..] == m.message[q..];
    assert CanonicalForm.LineStart(s, p2);
    assert s[0..] == s;
    assert NextMatch(find, s, 0) == Some(0);
    assert MatchEnd(find, s, 0) == e;
    var p := NextMatch(find, s, e).value;
    var g2 := Groups(find(s[p..]).value);
    var rest := SplitFrom(find, s, MatchEnd(find, s, p));
    assert SplitFrom(find, s, e) == [s[e..p]] + g2 + rest;
    DropTrailingKeeps([s[e..p]] + g2, rest);
    assert SplitAsWritten(find, s) == Groups(m) + ([s[e..p]] + g2 + DropTrailingEmpty(rest));
  }

  /** `dump.split(INPUT_FORMAT)` followed by `fields.shift`. */
  function SplitDump(dump: Bytes): seq<Bytes> {
    MatchConsumes();
    SplitAsWritten(Match, dump)
  }

  // ---- the shifts ----

  /** `%s` as `DateTime.strptime` reads it: digits, after an optional `-`. */
  predicate IsSecondsText(s: Bytes) {
    (1 <= |s| && AllDigits(s)) || (2 <= |s| && s[0] == MINUS && AllDigits(s[1..]))
  }

  function SecondsValue(s: Bytes): int
    requires IsSecondsText(s)
  {
    if s[0] == MINUS then 0 - Value(s[1..]) else Value(s)
  }

  /** `parse_timestamp`: `strptime(seconds, '%s')` fails on text that is
      not a number of seconds; `new_offset` ignores an offset that is not
      zone text and keeps offset 0. */
  function ParseTimestampText(seconds: Bytes, zone: Bytes): (r: Option<Timestamp>)
    ensures r.Some? <==> IsSecondsText(seconds)
    ensures r.Some? && !IsZoneText(zone) ==> r.value.offset == 0
  {
    if !IsSecondsText(seconds) then None
    else Some(Timestamp(SecondsValue(seconds), if IsZoneText(zone) then ZoneValue(zone) else 0))
  }

  /** `Seconds` writes text `strptime` reads back as the same number. */
  lemma SecondsTextRoundTrip(n: int)
    ensures IsSecondsText(Seconds(n)) && SecondsValue(Seconds(n)) == n
  {
    var s := Seconds(n);
    if n < 0 {
      var d := Decimal(-n);
      assert s == [MINUS] + d && s[1..] == d;
      ValueOfDecimal(-n);
    } else {
      assert IsDigit(s[0]);
      ValueOfDecimal(n);
    }
  }

  /** What `format_timestamp` writes (as intended), `parse_timestamp`
      reads back, before the epoch too. */
  lemma ParseTimestampTextRoundTrip(t: Timestamp)
    requires -6000 < t.offset < 6000
    ensures ParseTimestampText(Seconds(t.seconds), FormatZone(t.offset)) == Some(t)
  {
    FormatZoneRoundTrip(t.offset);
    SecondsTextRoundTrip(t.seconds);
  }

  /** On text the grammar captured, `parse_timestamp` agrees with it. */
  lemma ParseTimestampTextOfCapture(p: PersonText)
    requires ValidPersonText(p)
    ensures ParseTimestampText(p.seconds, p.zone) == Some(ParseTimestamp(p))
  {
    assert IsDigit(p.seconds[0]);
  }

  /** The number of parents `_load` reads: `fields.length - 10`, and none
      when that is not positive (`(1..count)` is then empty). */
  function ParentCount(fields: seq<Bytes>): nat {
    if |fields| > 10 then |fields| - 10 else 0
  }

  /** The `fields.shift` sequence of `_load`: the tree, `ParentCount`
      parents, then author, authored time, committer, committed time and
      message. With fewer than nine fields a timestamp is read from nil,
      which raises. */
  function FieldsFromList(fields: seq<Bytes>): (r: Option<Fields>)
    ensures r.Some? <==>
      9 <= |fields| && IsSecondsText(fields[ParentCount(fields) + 3]) && IsSecondsText(fields[ParentCount(fields) + 7])
    ensures r.Some? ==> r.value.tree == Some(fields[0]) && r.value.parents == fields[1..1 + ParentCount(fields)]
  {
    if |fields| < 9 then None
    else
      var k := 1 + ParentCount(fields);
      var at :- ParseTimestampText(fields[k + 2], fields[k + 3]);
      var ct :- ParseTimestampText(fields[k + 6], fields[k + 7]);
      Some(Fields(Some(fields[0]), fields[1..k],
        Some(Person(fields[k], fields[k + 1])), Some(Person(fields[k + 4], fields[k + 5])),
        Some(at), Some(ct),
        if k + 8 < |fields| then Some(fields[k + 8]) else None))
  }

  /** The loader block of `_load` as written: it fails without a match,
      and takes its tree from the first match. */
  function LoadFieldsAsWritten(dump: Bytes): (r: Option<Fields>)
    ensures r.Some? ==> NextMatch(Match, dump, 0).Some?
    ensures r.Some? ==> r.value.tree == Some(Match(dump[NextMatch(Match, dump, 0).value..]).value.tree)
  {
    MatchConsumes();
    FieldsFromList(SplitDump(dump))
  }

  // ---- what `_load` makes of `_dump`'s text ----

  /** No line of a message starts a text `INPUT_FORMAT` matches. */
  ghost predicate NoHeaderIn(message: Bytes) {
    NoLineMatch(Match, message)
  }

  /** Everything `_dump` writes before the blank line's newline. */
  function SerializeHead(c: CommitData): (w: Bytes)
    ensures Serialize(c) == w + ([LF] + c.message)
  {
    var a := PersonLine(AUTHOR_TAG, c.author, c.authoredAt);
    var m := PersonLine(COMMITTER_TAG, c.committer, c.committedAt);
    var parents := ParentLines(c.parents);
    var tail := [LF] + c.message;
    Regroup(a, m, tail);
    Regroup(parents, a + m, tail);
    Regroup([LF], parents + (a + m), tail);
    Regroup(c.tree, [LF] + (parents + (a + m)), tail);
    Regroup(TREE_TAG, c.tree + ([LF] + (parents + (a + m))), tail);
    TREE_TAG + (c.tree + ([LF] + (parents + (a + m))))
  }

  /** `_dump`'s text splits as a text with one match, followed by its
      message, when no line of the message starts a header block. */
  lemma DumpSplitsOnce(s: Bytes, w: Bytes, m: Captures)
    requires Match(s) == Some(m) && s == w + ([LF] + m.message) && NoHeaderIn(m.message)
    ensures SplitDump(s) == Groups(m) + (if |m.message| == 0 then [] else [m.message])
  {
    MatchConsumes();
    SplitOfOneMatch(Match, s, w, m);
  }

  /** The same text with a header block at line `q` of its message
      splits at least twice. */
  lemma DumpSplitsTwice(s: Bytes, w: Bytes, m: Captures, q: nat)
    requires Match(s) == Some(m) && s == w + ([LF] + m.message)
    requires q <= |m.message| && CanonicalForm.LineStart(m.message, q) && Match(m.message[q..]).Some?
    ensures 19 <= |SplitDump(s)|
  {
    MatchConsumes();
    SplitOfTwoMatches(Match, s, w, m, q);
  }

  /** The fields split yields for `_dump`'s text when the message holds
      no header block: the groups of the one match, then the message
      unless it is empty. */
  lemma SplitSerialize(c: CommitData)
    requires WellFormed(c) && NoHeaderIn(c.message)
    ensures SplitDump(Serialize(c)) == [c.tree] + LastParent(c.parents) +
      PersonFields(PersonTextOf(c.author, c.authoredAt)) +
      PersonFields(PersonTextOf(c.committer, c.committedAt)) +
      (if |c.message| == 0 then [] else [c.message])
  {
    var m := Captures(c.tree, c.parents, PersonTextOf(c.author, c.authoredAt),
      PersonTextOf(c.committer, c.committedAt), c.message);
    var w := SerializeHead(c);
    MatchSerialize(c);
    DumpSplitsOnce(Serialize(c), w, m);
  }

  /** The shifts read a well-aligned list (at most one parent and a
      message) field by field. */
  lemma ShiftAligned(tree: Bytes, parents: seq<Bytes>, a: PersonText, m: PersonText, message: Bytes)
    requires |parents| <= 1 && ValidPersonText(a) && ValidPersonText(m)
    ensures FieldsFromList([tree] + parents + PersonFields(a) + PersonFields(m) + [message]) ==
      Some(Fields(Some(tree), parents,
        Some(Person(a.name, a.email)), Some(Person(m.name, m.email)),
        Some(ParseTimestamp(a)), Some(ParseTimestamp(m)), Some(message)))
  {
    var fields := [tree] + parents + PersonFields(a) + PersonFields(m) + [message];
    var k := 1 + |parents|;
    assert |fields| == k + 9;
    assert fields[k..] == PersonFields(a) + PersonFields(m) + [message];
    assert fields[1..k] == parents;
    ParseTimestampTextOfCapture(a);
    ParseTimestampTextOfCapture(m);
  }

  /** With a non-empty message free of header blocks, the as-written
      loader keeps only the last parent; for at most one parent it agrees
      with the grammar. */
  lemma LoadAsWrittenKeepsLastParent(c: CommitData)
    requires WellFormed(c) && |c.message| > 0 && NoHeaderIn(c.message)
    ensures LoadFieldsAsWritten(Serialize(c)) == Some(FieldsOf(c).(parents := LastParent(c.parents)))
    ensures |c.parents| <= 1 ==> LoadFieldsAsWritten(Serialize(c)) == LoadFields(Serialize(c))
  {
    SplitSerialize(c);
    AlignedLoad(Serialize(c), c);
    ParseSerialize(c);
    if |c.parents| == 1 {
      assert c.parents == [c.parents[0]];
    }
  }

  /** The aligned read, for any dump that splits as `_dump`'s text of a
      commit with a message does. */
  lemma AlignedLoad(dump: Bytes, c: CommitData)
    requires WellFormed(c)
    requires SplitDump(dump) == [c.tree] + LastParent(c.parents) +
      PersonFields(PersonTextOf(c.author, c.authoredAt)) +
      PersonFields(PersonTextOf(c.committer, c.committedAt)) + [c.message]
    ensures LoadFieldsAsWritten(dump) == Some(FieldsOf(c).(parents := LastParent(c.parents)))
  {
    ParseTimestampOf(c.author, c.authoredAt);
    ParseTimestampOf(c.committer, c.committedAt);
    ShiftAligned(c.tree, LastParent(c.parents), PersonTextOf(c.author, c.authoredAt),
      PersonTextOf(c.committer, c.committedAt), c.message);
  }


  /** A merge commit loses all but its last parent. */
  lemma MergeLosesParents(c: CommitData)
    requires WellFormed(c) && |c.message| > 0 && NoHeaderIn(c.message) && |c.parents| == 2
    ensures LoadFieldsAsWritten(Serialize(c)) == Some(FieldsOf(c).(parents := [c.parents[1]]))
    ensures [c.parents[1]] != c.parents
    ensures LoadFields(Serialize(c)) == Some(FieldsOf(c))
  {
    LoadAsWrittenKeepsLastParent(c);
    ParseSerialize(c);
  }

  /** Ten fields with no parent among them are read with every field
      after the tree one place early. */
  lemma ShiftMisaligned(tree: Bytes, parent: Bytes, a: PersonText, m: PersonText)
    requires ValidPersonText(a) && ValidPersonText(m)
    ensures FieldsFromList([tree] + [parent] + PersonFields(a) + PersonFields(m)) ==
      if IsSecondsText(a.email) && IsSecondsText(m.email) then
        Some(Fields(Some(tree), [],
          Some(Person(parent, a.name)), Some(Person(a.zone, m.name)),
          Some(Timestamp(SecondsValue(a.email), 0)), Some(Timestamp(SecondsValue(m.email), 0)),
          Some(m.zone)))
      else None
  {
    var fields := [tree] + [parent] + PersonFields(a) + PersonFields(m);
    assert fields == [tree, parent, a.name, a.email, a.seconds, a.zone, m.name, m.email, m.seconds, m.zone];
    assert IsDigit(a.seconds[0]) && IsDigit(m.seconds[0]);
  }

  /** With one parent and an empty message the split yields ten fields,
      the parent count comes out 0, and every later field is read one
      place early: the parent becomes the author's name, the e-mails are
      read as seconds, and the committer's zone becomes the message. */
  lemma LoadAsWrittenMisalignsEmptyMessage(c: CommitData)
    requires WellFormed(c) && |c.message| == 0 && |c.parents| == 1
    ensures LoadFieldsAsWritten(Serialize(c)) != Some(FieldsOf(c))
    ensures LoadFieldsAsWritten(Serialize(c)).Some? <==>
      IsSecondsText(c.author.email) && IsSecondsText(c.committer.email)
    ensures LoadFieldsAsWritten(Serialize(c)).Some? ==>
      var f := LoadFieldsAsWritten(Serialize(c)).value;
      && f.parents == []
      && f.author == Some(Person(c.parents[0], c.author.name))
      && f.authoredAt.Some? && f.authoredAt.value.offset == 0
      && f.message == Some(FormatZone(c.committedAt.offset))
    ensures LoadFields(Serialize(c)) == Some(FieldsOf(c))
  {
    assert NoHeaderIn(c.message) by {
      assert c.message[0..] == [];
    }
    SplitSerialize(c);
    assert LastParent(c.parents) == [c.parents[0]];
    ParseSerialize(c);
    MisalignedLoad(Serialize(c), c);
  }

  /** The misaligned read, for any dump that splits as `_dump`'s text of
      such a commit does. */
  lemma MisalignedLoad(dump: Bytes, c: CommitData)
    requires WellFormed(c) && |c.message| == 0 && |c.parents| == 1
    requires SplitDump(dump) == [c.tree] + [c.parents[0]] +
      PersonFields(PersonTextOf(c.author, c.authoredAt)) +
      PersonFields(PersonTextOf(c.committer, c.committedAt))
    ensures LoadFieldsAsWritten(dump) != Some(FieldsOf(c))
    ensures LoadFieldsAsWritten(dump).Some? <==>
      IsSecondsText(c.author.email) && IsSecondsText(c.committer.email)
    ensures LoadFieldsAsWritten(dump).Some? ==>
      var f := LoadFieldsAsWritten(dump).value;
      && f.parents == []
      && f.author == Some(Person(c.parents[0], c.author.name))
      && f.authoredAt.Some? && f.authoredAt.value.offset == 0
      && f.message == Some(FormatZone(c.committedAt.offset))
  {
    ParseTimestampOf(c.author, c.authoredAt);
    ParseTimestampOf(c.committer, c.committedAt);
    ShiftMisaligned(c.tree, c.parents[0], PersonTextOf(c.author, c.authoredAt), PersonTextOf(c.committer, c.committedAt));
  }

  /** A dump split into nineteen fields or more is read as nine parents
      or more. */
  lemma ManyFieldsManyParents(dump: Bytes)
    requires 19 <= |SplitDump(dump)|
    ensures LoadFieldsAsWritten(dump).Some? ==> 9 <= |LoadFieldsAsWritten(dump).value.parents|
  {
    var fields := SplitDump(dump);
    assert LoadFieldsAsWritten(dump) == FieldsFromList(fields);
  }

  /** A message holding a header block at a line start is split again:
      the list grows by that block's groups, and the loader reads nine or
      more parents out of it. */
  lemma MessageHeaderResplits(c: CommitData, q: nat)
    requires WellFormed(c)
    requires q <= |c.message| && CanonicalForm.LineStart(c.message, q) && Match(c.message[q..]).Some?
    ensures 19 <= |SplitDump(Serialize(c))|
    ensures LoadFieldsAsWritten(Serialize(c)).Some? ==> 9 <= |LoadFieldsAsWritten(Serialize(c)).value.parents|
  {
    var m := Captures(c.tree, c.parents, PersonTextOf(c.author, c.authoredAt),
      PersonTextOf(c.committer, c.committedAt), c.message);
    var w := SerializeHead(c);
    MatchSerialize(c);
    DumpSplitsTwice(Serialize(c), w, m, q);
    ManyFieldsManyParents(Serialize(c));
  }
}
