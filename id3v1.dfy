/** The ID3v1 / ID3v1.1 tag reader (knmusictagid3v1.cpp): the last 128
    bytes of a music file, starting with "TAG", hold fixed-width fields
    for title, artist, album, year, comment (whose last two bytes may be a
    NUL and a track number) and a genre byte. */
module Id3v1 {
  import opened Bytes
  import opened Decimal

  /** The size of the record. */
  const TagSize: nat := 128

  /** The track value of an ID3v1Struct that no track was read into. The
      structure's declaration (knmusictagid3v1.h) is not part of this model;
      this is the "no track" value that writeTagDataToDetailInfo tests. */
  const NoTrack: int := -1

  datatype Option<T> = None | Some(value: T)

  // ---------------------------------------------------------------------
  // Text read from a C string

  /** The bytes of s before its first NUL (all of s when it has none), as
      QTextCodec::toUnicode(const char *) reads a C string. */
  function UntilNul(s: seq<Byte>): (r: seq<Byte>)
    ensures |r| <= |s| && r == s[..|r|]
    ensures forall i :: 0 <= i < |r| ==> r[i] != 0
    ensures |r| < |s| ==> s[|r|] == 0
  {
    if s == [] || s[0] == 0 then [] else [s[0]] + UntilNul(s[1..])
  }

  /** A NUL at position k ends the text there or earlier: what lies behind
      it is never read. */
  lemma {:induction false} UntilNulStops(s: seq<Byte>, k: nat)
    requires k < |s| && s[k] == 0
    ensures UntilNul(s) == UntilNul(s[..k])
  {
    if k > 0 && s[0] != 0 {
      assert s[1..][k - 1] == 0;
      UntilNulStops(s[1..], k - 1);
      assert s[1..][..k - 1] == s[..k][1..];
    }
  }

  /** The bytes contain no NUL. */
  predicate NoNul(s: seq<Byte>)
  {
    forall i :: 0 <= i < |s| ==> s[i] != 0
  }

  /** Text without NUL bytes is read back whole when nothing follows it. */
  lemma {:induction false} UntilNulOfNulFree(t: seq<Byte>)
    requires NoNul(t)
    ensures UntilNul(t) == t
  {
    if t != [] {
      UntilNulOfNulFree(t[1..]);
    }
  }

  /** Text without NUL bytes is read back whole when a NUL follows it. */
  lemma {:induction false} UntilNulOfTerminated(t: seq<Byte>, rest: seq<Byte>)
    requires NoNul(t)
    requires rest != [] && rest[0] == 0
    ensures UntilNul(t + rest) == t
  {
    if t != [] {
      assert (t + rest)[1..] == t[1..] + rest;
      UntilNulOfTerminated(t[1..], rest);
    }
  }

  // ---------------------------------------------------------------------
  // backupByte

  /** The state backupByte threads through parseRawData: the 128-byte
      buffer, the byte saved from it (backupPool) and where it came from
      (positionPool, -1 for none). */
  datatype Backup = Backup(buffer: seq<Byte>, pool: Byte, position: int)

  predicate ValidBackup(b: Backup)
  {
    |b.buffer| == TagSize && (b.position == -1 || 0 <= b.position < TagSize)
  }

  /** backupByte on values: put the saved byte back, save the byte at the
      target and remember the target, and zero the target when asked. */
  function BackupStep(b: Backup, target: nat, clear: bool): (r: Backup)
    requires ValidBackup(b) && target < TagSize
    ensures ValidBackup(r)
  {
    var restored := if b.position != -1 then b.buffer[b.position := b.pool] else b.buffer;
    Backup(if clear then restored[target := 0] else restored, restored[target], target)
  }

  /** What one backupByte does and does not change: the old position gets
      its saved byte back, the target is saved (as it stands after that
      restoration) and remembered, the target is zeroed exactly when clear
      is set, and no other byte changes. */
  lemma BackupStepEffect(b: Backup, target: nat, clear: bool)
    requires ValidBackup(b) && target < TagSize
    ensures var r := BackupStep(b, target, clear);
            && r.position == target
            && r.pool == (if b.position == target then b.pool else b.buffer[target])
            && r.buffer[target] == (if clear then 0 else r.pool)
            && (b.position != -1 && b.position != target ==> r.buffer[b.position] == b.pool)
            && (forall i :: 0 <= i < TagSize && i != target && i != b.position ==>
                  r.buffer[i] == b.buffer[i])
  {
  }

  /** From a clean buffer, or from one where only the previously cleared
      position differs, a clearing backup leaves the original buffer with
      only the new target zeroed, and saves the target's original byte. */
  lemma BackupMoves(orig: seq<Byte>, b: Backup, target: nat)
    requires |orig| == TagSize && target < TagSize && ValidBackup(b)
    requires b.position == -1 ==> b.buffer == orig
    requires b.position != -1 ==> b.buffer == orig[b.position := 0] && b.pool == orig[b.position]
    ensures BackupStep(b, target, true) == Backup(orig[target := 0], orig[target], target)
  {
    if b.position != -1 {
      assert b.buffer[b.position := b.pool] == orig;
    }
  }

  /** The five backups of parseRawData, at 33, 63, 93, 97 and 127, leave
      the buffer as it was except for byte 127, which is zeroed, and hold
      the original byte 127 (the genre) as the last saved byte. */
  lemma FiveBackups(orig: seq<Byte>, pool: Byte)
    requires |orig| == TagSize
    ensures var b0 := Backup(orig, pool, -1);
            var b1 := BackupStep(b0, 33, true);
            var b2 := BackupStep(b1, 63, true);
            var b3 := BackupStep(b2, 93, true);
            var b4 := BackupStep(b3, 97, true);
            BackupStep(b4, 127, true) == Backup(orig[127 := 0], orig[127], 127)
  {
    var b0 := Backup(orig, pool, -1);
    BackupMoves(orig, b0, 33);
    var b1 := BackupStep(b0, 33, true);
    BackupMoves(orig, b1, 63);
    var b2 := BackupStep(b1, 63, true);
    BackupMoves(orig, b2, 93);
    var b3 := BackupStep(b2, 93, true);
    BackupMoves(orig, b3, 97);
    var b4 := BackupStep(b3, 97, true);
    BackupMoves(orig, b4, 127);
  }

  /** backupByte (lines 118-137) on the tag buffer. The saved byte and its
      position, reference parameters in the source, come in as arguments
      and go out as results. */
  method BackupByte(rawTagData: array<Byte>, backupPosition: nat, backupPool: Byte,
                    positionPool: int, clearData: bool)
    returns (pool: Byte, position: int)
    requires rawTagData.Length == TagSize && backupPosition < TagSize
    requires positionPool == -1 || 0 <= positionPool < TagSize
    modifies rawTagData
    ensures Backup(rawTagData[..], pool, position)
            == BackupStep(Backup(old(rawTagData[..]), backupPool, positionPool), backupPosition, clearData)
  {
    if positionPool != -1 {
      rawTagData[positionPool] := backupPool;
    }
    pool := rawTagData[backupPosition];
    position := backupPosition;
    if clearData {
      rawTagData[backupPosition] := 0;
    }
  }

  // ---------------------------------------------------------------------
  // The record layout

  /** The fields of a record: the five texts as the bytes the locale codec
      is given, the track number and the genre index. */
  datatype Tag = Tag(title: seq<Byte>, artist: seq<Byte>, album: seq<Byte>, year: seq<Byte>,
                     comment: seq<Byte>, track: int, genreIndex: int)

  /** Reference layout of the 128-byte record. The title is read from 3 up
      to the first NUL, never past 32; artist, album and year are the raw
      windows 33-62, 63-92 and 93-96; the comment is read from 97 up to the
      first NUL, never past 126; when byte 125 is NUL, byte 126 is the
      track (ID3v1.1), otherwise the track keeps its previous value; byte
      127 is the genre, as a signed char. */
  function Layout(raw: seq<Byte>, track: int): (tag: Tag)
    requires |raw| == TagSize
  {
    Tag(UntilNul(raw[3..33]), raw[33..63], raw[63..93], raw[93..97], UntilNul(raw[97..127]),
        if raw[125] == 0 then raw[126] as int else track,
        SignedByte(raw[127]))
  }

  /** The parsed record of ID3v1Struct, filled in place by parseRawData. */
  class Id3v1Struct {
    var tags: seq<seq<Byte>>
    var track: int
    var genreIndex: int

    /** A structure as praseTag declares it: empty texts and no track. */
    constructor ()
      ensures tags == [[], [], [], [], []] && track == NoTrack && genreIndex == 0
    {
      tags := [[], [], [], [], []];
      track := NoTrack;
      genreIndex := 0;
    }

    function Value(): (tag: Tag)
      reads this
      requires |tags| == 5
    {
      Tag(tags[0], tags[1], tags[2], tags[3], tags[4], track, genreIndex)
    }
  }

  /** The text toUnicode(rawTagData + start) reads: a C string. */
  function CString(buffer: seq<Byte>, start: nat): (text: seq<Byte>)
    requires start <= |buffer|
  {
    UntilNul(buffer[start..])
  }

  /** Reading a C string at start of a buffer whose byte at end is NUL
      stays inside start..end - 1. */
  lemma CStringWindow(orig: seq<Byte>, start: nat, end: nat)
    requires start < end < |orig|
    ensures CString(orig[end := 0], start) == UntilNul(orig[start..end])
  {
    var s := orig[end := 0][start..];
    UntilNulStops(s, end - start);
    assert s[..end - start] == orig[start..end];
  }

  /** parseRawData (lines 67-98): the five backups that NUL-terminate the
      field being read, the field reads, the track rule and the genre. The
      last saved byte starts undefined in the source; no step reads it
      before the first backup replaces it. */
  method ParseRawData(rawTagData: array<Byte>, tagData: Id3v1Struct)
    requires rawTagData.Length == TagSize && |tagData.tags| == 5
    modifies rawTagData, tagData
    ensures rawTagData[..] == old(rawTagData[..])[127 := 0]
    ensures |tagData.tags| == 5
    ensures tagData.Value() == Layout(old(rawTagData[..]), old(tagData.track))
  {
    ghost var orig := rawTagData[..];
    var lastBackupData: Byte := 0;
    var lastBackupPosition := -1;
    BackupMoves(orig, Backup(rawTagData[..], lastBackupData, lastBackupPosition), 33);
    lastBackupData, lastBackupPosition := BackupByte(rawTagData, 33, lastBackupData, lastBackupPosition, true);
    CStringWindow(orig, 3, 33);
    tagData.tags := tagData.tags[0 := CString(rawTagData[..], 3)];
    BackupMoves(orig, Backup(rawTagData[..], lastBackupData, lastBackupPosition), 63);
    lastBackupData, lastBackupPosition := BackupByte(rawTagData, 63, lastBackupData, lastBackupPosition, true);
    tagData.tags := tagData.tags[1 := rawTagData[33..63]];
    BackupMoves(orig, Backup(rawTagData[..], lastBackupData, lastBackupPosition), 93);
    lastBackupData, lastBackupPosition := BackupByte(rawTagData, 93, lastBackupData, lastBackupPosition, true);
    tagData.tags := tagData.tags[2 := rawTagData[63..93]];
    BackupMoves(orig, Backup(rawTagData[..], lastBackupData, lastBackupPosition), 97);
    lastBackupData, lastBackupPosition := BackupByte(rawTagData, 97, lastBackupData, lastBackupPosition, true);
    tagData.tags := tagData.tags[3 := rawTagData[93..97]];
    BackupMoves(orig, Backup(rawTagData[..], lastBackupData, lastBackupPosition), 127);
    lastBackupData, lastBackupPosition := BackupByte(rawTagData, 127, lastBackupData, lastBackupPosition, true);
    if rawTagData[125] == 0 {
      tagData.track := rawTagData[126] as int;
    }
    CStringWindow(orig, 97, 127);
    tagData.tags := tagData.tags[4 := CString(rawTagData[..], 97)];
    tagData.genreIndex := SignedByte(lastBackupData);
  }

  // ---------------------------------------------------------------------
  // writeTagDataToDetailInfo and praseTag

  /** The fields of KNMusicDetailInfo::textLists this reader writes. */
  datatype Field = Name | Artist | Album | Year | Comments | Genre | TrackNumber

  /** A value stored in textLists: the locale codec's decoding of bytes,
      simplified; the name KNMusicGlobal::indexedGenre gives a genre index;
      or plain text. Decoding and the genre table are not modelled. */
  datatype Text = Decoded(bytes: seq<Byte>) | GenreName(index: int) | Plain(text: string)

  /** The detail record a tag parser fills in. */
  class DetailInfo {
    var textLists: map<Field, Text>

    constructor (textLists: map<Field, Text>)
      ensures this.textLists == textLists
    {
      this.textLists := textLists;
    }
  }

  /** The fields after the tag is written into them: the five texts and the
      genre always, the track number only when there is one. */
  function Written(textLists: map<Field, Text>, tag: Tag): (r: map<Field, Text>)
  {
    var texts := textLists[Name := Decoded(tag.title)][Artist := Decoded(tag.artist)]
                          [Album := Decoded(tag.album)][Year := Decoded(tag.year)]
                          [Comments := Decoded(tag.comment)][Genre := GenreName(tag.genreIndex)];
    if tag.track != NoTrack then texts[TrackNumber := Plain(NumberText(tag.track))] else texts
  }

  /** Every text of the tag lands in its own field, and the track number is
      written exactly when the tag has one; fields the reader does not own
      keep their values. */
  lemma WrittenFields(textLists: map<Field, Text>, tag: Tag)
    ensures var r := Written(textLists, tag);
            && r[Name] == Decoded(tag.title) && r[Artist] == Decoded(tag.artist)
            && r[Album] == Decoded(tag.album) && r[Year] == Decoded(tag.year)
            && r[Comments] == Decoded(tag.comment) && r[Genre] == GenreName(tag.genreIndex)
            && (tag.track != NoTrack ==> r[TrackNumber] == Plain(NumberText(tag.track)))
            && (tag.track == NoTrack ==>
                  (TrackNumber in r <==> TrackNumber in textLists)
                  && (TrackNumber in textLists ==> r[TrackNumber] == textLists[TrackNumber]))
            && r.Keys == textLists.Keys + {Name, Artist, Album, Year, Comments, Genre}
                         + (if tag.track != NoTrack then {TrackNumber} else {})
  {
  }

  /** writeTagDataToDetailInfo (lines 100-116). */
  method WriteTagDataToDetailInfo(tagData: Id3v1Struct, detailInfo: DetailInfo)
    requires |tagData.tags| == 5
    modifies detailInfo
    ensures detailInfo.textLists == Written(old(detailInfo.textLists), tagData.Value())
  {
    detailInfo.textLists := detailInfo.textLists[Name := Decoded(tagData.tags[0])];
    detailInfo.textLists := detailInfo.textLists[Artist := Decoded(tagData.tags[1])];
    detailInfo.textLists := detailInfo.textLists[Album := Decoded(tagData.tags[2])];
    detailInfo.textLists := detailInfo.textLists[Year := Decoded(tagData.tags[3])];
    detailInfo.textLists := detailInfo.textLists[Comments := Decoded(tagData.tags[4])];
    detailInfo.textLists := detailInfo.textLists[Genre := GenreName(tagData.genreIndex)];
    if tagData.track != NoTrack {
      detailInfo.textLists := detailInfo.textLists[TrackNumber := Plain(NumberText(tagData.track))];
    }
  }

  /** The "TAG" header: 'T', 'A', 'G'. */
  predicate HasHeader(raw: seq<Byte>)
  {
    |raw| >= 3 && raw[0] == 0x54 && raw[1] == 0x41 && raw[2] == 0x47
  }

  /** The record a file carries, if any: its last 128 bytes when the file
      is long enough and they start with "TAG". */
  function ReadTag(file: seq<Byte>): (tag: Option<Tag>)
    ensures tag.Some? <==> |file| >= TagSize && HasHeader(file[|file| - TagSize..])
  {
    if |file| < TagSize then None
    else
      var raw := file[|file| - TagSize..];
      if !HasHeader(raw) then None else Some(Layout(raw, NoTrack))
  }

  /** praseTag (lines 30-58) on the contents of the file. */
  method PraseTag(file: seq<Byte>, detailInfo: DetailInfo) returns (ok: bool)
    modifies detailInfo
    ensures ok <==> ReadTag(file).Some?
    ensures ok ==> detailInfo.textLists == Written(old(detailInfo.textLists), ReadTag(file).value)
    ensures !ok ==> detailInfo.textLists == old(detailInfo.textLists)
  {
    var fileSize := |file|;
    if fileSize < TagSize {
      return false;
    }
    var rawTagData := new Byte[TagSize](i requires 0 <= i < TagSize => file[fileSize - TagSize + i]);
    assert rawTagData[..] == file[fileSize - TagSize..];
    if rawTagData[0] != 0x54 || rawTagData[1] != 0x41 || rawTagData[2] != 0x47 {
      return false;
    }
    var tagData := new Id3v1Struct();
    ParseRawData(rawTagData, tagData);
    WriteTagDataToDetailInfo(tagData, detailInfo);
    return true;
  }

  // ---------------------------------------------------------------------
  // Reading back a written record

  /** s followed by NULs up to n bytes. */
  function Pad(s: seq<Byte>, n: nat): (r: seq<Byte>)
    requires |s| <= n
    ensures |r| == n && r[..|s|] == s
    ensures forall i :: |s| <= i < n ==> r[i] == 0
  {
    s + seq(n - |s|, _ => 0)
  }

  /** An ID3v1.1 record as a writer lays it out: "TAG", the four padded
      texts, a comment of at most 28 bytes padded to 28, a NUL, the track
      byte and the genre byte. */
  function Record(title: seq<Byte>, artist: seq<Byte>, album: seq<Byte>, year: seq<Byte>,
                  comment: seq<Byte>, track: Byte, genre: Byte): (raw: seq<Byte>)
    requires |title| <= 30 && |artist| <= 30 && |album| <= 30 && |year| <= 4 && |comment| <= 28
    ensures |raw| == TagSize && HasHeader(raw)
  {
    [0x54, 0x41, 0x47] + Pad(title, 30) + Pad(artist, 30) + Pad(album, 30) + Pad(year, 4)
      + Pad(comment, 28) + [0, track, genre]
  }

  /** Text free of NULs that fits its field is read back whole, whether
      padding follows it or it fills the field. */
  lemma PaddedTextReadsBack(s: seq<Byte>, n: nat)
    requires |s| <= n && NoNul(s)
    ensures UntilNul(Pad(s, n)) == s
  {
    var r := Pad(s, n);
    if |s| < n {
      assert r == s + r[|s|..];
      UntilNulOfTerminated(s, r[|s|..]);
    } else {
      assert r == s;
      UntilNulOfNulFree(s);
    }
  }

  /** The reader recovers what an ID3v1.1 writer stored: title and comment
      whole (when free of NULs, up to the full width of their fields), the other
      texts as their padded windows, the track byte and the genre byte read
      as a signed char. */
  lemma RecordReadsBack(title: seq<Byte>, artist: seq<Byte>, album: seq<Byte>, year: seq<Byte>,
                        comment: seq<Byte>, track: Byte, genre: Byte)
    requires |title| <= 30 && NoNul(title)
    requires |artist| <= 30 && |album| <= 30 && |year| <= 4
    requires |comment| <= 28 && NoNul(comment)
    ensures var raw := Record(title, artist, album, year, comment, track, genre);
            Layout(raw, NoTrack)
            == Tag(title, Pad(artist, 30), Pad(album, 30), Pad(year, 4), comment,
                   track as int, SignedByte(genre))
  {
    var raw := Record(title, artist, album, year, comment, track, genre);
    var pt, pa, pb, py, pc := Pad(title, 30), Pad(artist, 30), Pad(album, 30), Pad(year, 4), Pad(comment, 28);
    assert raw == [0x54, 0x41, 0x47] + pt + pa + pb + py + pc + [0, track, genre];
    assert raw[3..33] == pt;
    assert raw[33..63] == pa;
    assert raw[63..93] == pb;
    assert raw[93..97] == py;
    assert raw[97..127] == pc + [0, track];
    assert raw[125] == 0 && raw[126] == track && raw[127] == genre;
    PaddedTextReadsBack(title, 30);
    var cs := pc + [0, track];
    assert cs == comment + cs[|comment|..];
    UntilNulOfTerminated(comment, cs[|comment|..]);
  }
}
