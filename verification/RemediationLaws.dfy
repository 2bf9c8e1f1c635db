/** What the remediation is for, without its own encryption function: no text is lost, and every
    text that was in clear is stored encrypted. */
module RemediationLaws {
  import opened Wrappers
  import opened PiiFormat
  import opened Remediation
  import Text
  import Utf8

  /** Decryption under the same key. */
  type Opener = (Bytes16, Sealed) -> seq<Byte>

  ghost predicate Opens(open: Opener, gcm: Gcm) {
    forall iv: Bytes16, plain: seq<Byte> :: open(iv, gcm(iv, plain)) == plain
  }

  /** A stored value gives back a text: split on ':', decode the three parts from hexadecimal,
      open the box, and read the bytes as UTF-8. */
  predicate ReadsBack(open: Opener, stored: string, text: string) {
    var parts := Text.Split(stored, ':');
    && |parts| == 3
    && (forall i | 0 <= i < 3 :: AllHex(parts[i]) && |parts[i]| % 2 == 0)
    && |parts[0]| == 32 && |parts[1]| == 32
    && var iv, authTag, cipher := FromHex(parts[0]), FromHex(parts[1]), FromHex(parts[2]);
       Utf8.Decode(open(iv, Sealed(cipher, authTag))) == text
  }

  lemma EncryptReadsBack(gcm: Gcm, open: Opener, iv: Bytes16, text: string)
    requires Opens(open, gcm)
    ensures ReadsBack(open, Encrypt(gcm, iv, text), text)
  {
    var box := gcm(iv, Utf8.Encode(text));
    FormatSplits(iv, box);
    Utf8.DecodeEncode(text);
    assert open(iv, box) == Utf8.Encode(text);
  }

  /** A field in clear: not null, not empty, and not of the printed form. */
  predicate InClear(field: Option<string>) {
    match field
    case None => false
    case Some(text) => text != "" && !LooksAlreadyEncrypted(text)
  }

  /** Over any runs, each stopped at any row and the last complete: a field in clear is written
      once, and then holds a recognised value that reads back as its original text; any other
      field is as it was. */
  lemma NoTextIsLost(gcm: Gcm, open: Opener, states: seq<Tables>, runs: seq<Run>, f: Field)
    requires KeepsLength(gcm) && Opens(open, gcm)
    requires History(gcm, states, runs) && HasRow(states[0], RowOf(f))
    requires runs != [] && Complete(runs[|runs| - 1])
    ensures var start, end := states[0], states[|runs|];
      && HasRow(end, RowOf(f))
      && (InClear(Value(start, f)) ==>
            && end.writes[f] == start.writes[f] + 1
            && Value(end, f).Some? && LooksAlreadyEncrypted(Value(end, f).value)
            && ReadsBack(open, Value(end, f).value, Value(start, f).value))
      && (!InClear(Value(start, f)) ==>
            end.writes[f] == start.writes[f] && Value(end, f) == Value(start, f))
  {
    var start, end := states[0], states[|runs|];
    ExactlyOnce(gcm, states, runs, f);
    if InClear(Value(start, f)) {
      var text := Value(start, f).value;
      var k :| 0 <= k < |runs| && Value(end, f) == Some(Encrypt(gcm, runs[k].ivs(f), text));
      EncryptReadsBack(gcm, open, runs[k].ivs(f), text);
      EncryptedIsRecognised(gcm, runs[k].ivs(f), text);
    }
  }

  /** Two fields encrypted in one run use the IVs drawn for each. */
  lemma OwnIv(gcm: Gcm, t: Tables, run: Run, t': Tables, f: Field)
    requires KeepsLength(gcm) && RunStep(gcm, t, run, t') && HasRow(t, RowOf(f))
    requires HasRow(t', RowOf(f)) && Value(t', f) != Value(t, f)
    ensures Value(t', f).Some? && Text.Split(Value(t', f).value, ':')[0] == ToHex(run.ivs(f))
  {
    var _ := RunEffect(gcm, t, run, t', f);
    var text := Value(t, f).value;
    FormatSplits(run.ivs(f), gcm(run.ivs(f), Utf8.Encode(text)));
  }
}
