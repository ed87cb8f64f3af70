/** The one-slot "next command" record of `showtext`: the file
    `./showtext.next`, modelled as its contents (`None` when the file does
    not exist). `save_next_command` writes it with `"%d %s\n"`;
    `check_next_command` reads it with `"%d %[^\n]"` and removes it only
    after a successful two-field read. */
module NextCommand {
  import opened Wrappers
  import opened CLib

  /** A pending command: a duration and the text to show. */
  datatype Command = Command(duration: int, text: string)

  /** The slot's contents after a read, with what was read. */
  datatype Checked = Checked(command: Option<Command>, slot: Option<string>)

  /** The text a slot can carry unchanged: `%[^\n]` needs at least one
      character and stops at a newline, and the blank before it swallows
      leading white space. */
  predicate SlotSafe(text: string) {
    |text| > 0 && '\n' !in text && !IsSpace(text[0])
  }

  /** `fprintf(f, "%d %s\n", duration, text)`: ended by a newline, and one
      line exactly when the text holds no newline of its own. */
  function Encode(text: string, duration: int): (line: string)
    ensures |line| > 0 && line[|line| - 1] == '\n'
    ensures '\n' in line[..|line| - 1] <==> '\n' in text
  {
    var number := FormatInt(duration);
    var line := number + (" " + text + "\n");
    assert line == (number + " " + text) + "\n";
    assert line[..|line| - 1] == number + " " + text;
    assert forall i :: 0 <= i < |number| ==> number[i] != '\n' by {
      if duration < 0 {
        assert forall i :: 1 <= i < |number| ==> number[i] == number[1..][i - 1];
      }
    }
    line
  }

  /** The leading `%d` of a saved line reads back the duration, whatever
      its sign, and stops at the blank before the text. */
  lemma EncodedDurationReads(text: string, duration: int)
    ensures ScanInt(Encode(text, duration)) == Some(Scanned(duration, " " + text + "\n"))
  {
    ScanFormatted(duration, " " + text + "\n");
  }

  /** `fscanf(f, "%d %[^\n]", ...) == 2`: an integer, any white space, then
      one or more characters up to the end of the line. */
  function Decode(contents: string): (r: Option<Command>)
    ensures r.Some? ==> SlotSafe(r.value.text)
    ensures r.Some? ==> ScanInt(contents).Some? && r.value.duration == ScanInt(contents).value.value
  {
    match ScanInt(contents)
    case None => None
    case Some(Scanned(d, rest)) =>
      var t := UntilNewline(SkipSpace(rest));
      if |t| == 0 then None else Some(Command(d, t))
  }

  /** `save_next_command`: the file is opened with "w", so whatever the slot
      held is replaced. */
  function Save(slot: Option<string>, text: string, duration: int): (r: Option<string>)
    ensures r.Some?
    ensures Decode(r.value) == Some(Command(duration, text)) <==> SlotSafe(text)
  {
    SlotRoundTrip(text, duration);
    Some(Encode(text, duration))
  }

  /** `check_next_command`: an absent slot yields nothing; a slot that parses
      is consumed (unlinked); a slot that does not parse is left in place. */
  function CheckNext(slot: Option<string>): (r: Checked)
    ensures r.command.Some? <==> slot.Some? && Decode(slot.value).Some?
    ensures r.command.Some? ==> r.command == Decode(slot.value) && r.slot.None?
    ensures r.command.None? ==> r.slot == slot
  {
    match slot
    case None => Checked(None, None)
    case Some(contents) =>
      match Decode(contents)
      case None => Checked(None, slot)
      case Some(cmd) => Checked(Some(cmd), None)
  }

  lemma SkipOneBlank(text: string)
    requires SlotSafe(text)
    ensures SkipSpace(" " + text + "\n") == text + "\n"
  {
    assert (" " + text + "\n")[1..] == text + "\n";
    assert (text + "\n")[0] == text[0];
  }

  lemma {:induction false} UntilNewlineOfLine(text: string)
    requires '\n' !in text
    ensures UntilNewline(text + "\n") == text
    decreases |text|
  {
    if |text| > 0 {
      assert (text + "\n")[1..] == text[1..] + "\n";
      UntilNewlineOfLine(text[1..]);
      assert text == [text[0]] + text[1..];
    }
  }

  /** The slot protocol's round trip: what `save_next_command` writes is read
      back unchanged exactly when the text is slot-safe. A text that is empty,
      holds a newline or starts with white space comes back altered or not at
      all. */
  lemma SlotRoundTrip(text: string, duration: int)
    ensures Decode(Encode(text, duration)) == Some(Command(duration, text)) <==> SlotSafe(text)
  {
    EncodedDurationReads(text, duration);
    if SlotSafe(text) {
      SkipOneBlank(text);
      UntilNewlineOfLine(text);
    }
  }

  /** A slot-safe command just saved is what the next read takes, and the
      read unlinks the slot. */
  lemma SavedIsTaken(slot: Option<string>, text: string, duration: int)
    requires SlotSafe(text)
    ensures Save(slot, text, duration) == Some(Encode(text, duration))
    ensures CheckNext(Save(slot, text, duration)) == Checked(Some(Command(duration, text)), None)
  {
    EncodedIsTaken(text, duration);
  }

  /** A slot holding a saved line of a slot-safe text is taken by the next
      read, which unlinks it. */
  lemma EncodedIsTaken(text: string, duration: int)
    requires SlotSafe(text)
    ensures CheckNext(Some(Encode(text, duration))) == Checked(Some(Command(duration, text)), None)
  {
    SlotRoundTrip(text, duration);
  }

  /** Saving overwrites: after two saves only the second command is pending,
      whatever the slot held before. */
  lemma LastWriteWins(slot: Option<string>, t1: string, d1: int, t2: string, d2: int)
    requires SlotSafe(t2)
    ensures CheckNext(Save(Save(slot, t1, d1), t2, d2)) == Checked(Some(Command(d2, t2)), None)
  {
  }

  /** Reading a missing or malformed slot changes nothing, so reading it again
      gives the same answer. */
  lemma FailedCheckIsStable(slot: Option<string>)
    requires CheckNext(slot).command.None?
    ensures CheckNext(CheckNext(slot).slot) == CheckNext(slot)
  {
  }
}
