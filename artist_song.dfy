/** Deriving "artist - title" from a broken track's file name, for the
    missing-songs list (`parse_artist_and_song`, `add_to_missing_songs_file`). */
module ArtistSong {
  import opened PyStrings

  const UnknownArtist: string := "Unknown Artist"

  datatype Track = Track(artist: string, song: string)

  /** The file name is split on its LAST hyphen: the artist is the stripped text
      before it, the song the stripped text after it minus its extension. With
      no hyphen the artist is "Unknown Artist" and the song is the whole file
      name minus its extension, stripped. */
  function ParseArtistAndSong(brokenPath: string): (t: Track)
    ensures var name := Basename(brokenPath);
            var h := LastIndexOf(name, '-');
            (h >= 0 ==> t.artist == Strip(name[..h]) &&
                        t.song == Strip(DropExtension(name[h + 1..]))) &&
            (h < 0 ==> t.artist == UnknownArtist &&
                       t.song == Strip(DropExtension(name)))
  {
    var filename := Basename(brokenPath);
    var parts := RSplitOnce(filename, '-');
    if |parts| == 2 then
      Track(Strip(parts[0]), Strip(DropExtension(parts[1])))
    else
      Track(UnknownArtist, Strip(DropExtension(filename)))
  }

  /** Both parts trimmed, no part holding a '/', and no hyphen in the song. */
  predicate CleanTrack(t: Track) {
    '-' !in t.song && '/' !in t.song && '/' !in t.artist && Trimmed(t.artist) && Trimmed(t.song)
  }

  /** Both parts come out trimmed, no part holds a '/', and the song never
      holds a hyphen (it comes from after the last one). */
  lemma ParsedPartsClean(brokenPath: string)
    ensures CleanTrack(ParseArtistAndSong(brokenPath))
  {
    var filename := Basename(brokenPath);
    var h := LastIndexOf(filename, '-');
    if h >= 0 {
      SplitPartsClean(filename, h);
      assert ParseArtistAndSong(brokenPath) ==
             Track(Strip(filename[..h]), Strip(DropExtension(filename[h + 1..])));
    } else {
      WholeNameClean(filename);
      assert ParseArtistAndSong(brokenPath) == Track(UnknownArtist, Strip(DropExtension(filename)));
    }
  }

  /** The two sides of the last hyphen of a file name come out clean. */
  lemma SplitPartsClean(filename: string, h: nat)
    requires '/' !in filename && h < |filename|
    requires forall j :: h < j < |filename| ==> filename[j] != '-'
    ensures CleanTrack(Track(Strip(filename[..h]), Strip(DropExtension(filename[h + 1..]))))
  {
    AbsentInPiece(filename, 0, h, '/');
    AbsentInPiece(filename, h + 1, |filename|, '/');
    AbsentInPiece(filename, h + 1, |filename|, '-');
    CleanParts(filename[..h], filename[h + 1..]);
  }

  /** A file name without a hyphen gives a clean song and the clean
      placeholder artist. */
  lemma WholeNameClean(filename: string)
    requires '/' !in filename
    requires forall j :: 0 <= j < |filename| ==> filename[j] != '-'
    ensures CleanTrack(Track(UnknownArtist, Strip(DropExtension(filename))))
  {
    UnknownArtistTrimmed();
    AbsentInPiece(filename, 0, |filename|, '-');
    assert filename[0..|filename|] == filename;
    CleanParts(UnknownArtist, filename);
  }

  lemma CleanParts(artist: string, rest: string)
    requires '/' !in artist && '-' !in rest && '/' !in rest
    ensures var a, s := Strip(artist), Strip(DropExtension(rest));
            '-' !in s && '/' !in s && '/' !in a && Trimmed(a) && Trimmed(s)
  {
    StripKeepsAbsent(artist, '/');
    DropExtensionKeepsAbsent(rest, '-');
    DropExtensionKeepsAbsent(rest, '/');
    StripKeepsAbsent(DropExtension(rest), '-');
    StripKeepsAbsent(DropExtension(rest), '/');
  }

  lemma UnknownArtistTrimmed()
    ensures Trimmed(UnknownArtist) && '/' !in UnknownArtist
  {
  }

  /** The line `add_to_missing_songs_file` appends for a broken path. */
  function MissingSongsLine(brokenPath: string): (line: string)
  {
    var t := ParseArtistAndSong(brokenPath);
    t.artist + " - " + t.song
  }

  /** The missing-songs line reads back as the same artist and title whenever
      the title holds no dot (a dot would be taken for an extension). */
  lemma MissingSongsLineRoundTrip(brokenPath: string)
    requires '.' !in ParseArtistAndSong(brokenPath).song
    ensures ParseArtistAndSong(MissingSongsLine(brokenPath)) == ParseArtistAndSong(brokenPath)
  {
    var t := ParseArtistAndSong(brokenPath);
    ParsedPartsClean(brokenPath);
    ParseFormattedLine(t.artist, t.song);
  }

  /** A line "artist - song" built from clean parts parses back into them. */
  lemma ParseFormattedLine(artist: string, song: string)
    requires Trimmed(artist) && Trimmed(song)
    requires '/' !in artist && '/' !in song && '-' !in song && '.' !in song
    ensures ParseArtistAndSong(artist + " - " + song) == Track(artist, song)
  {
    var line := artist + " - " + song;
    FormattedLineShape(artist, song);
    PaddedArtist(artist);
    PaddedSong(song);
    var t := ParseArtistAndSong(line);
    assert t.artist == Strip(line[..|artist| + 1]);
    assert t.song == Strip(DropExtension(line[|artist| + 2..]));
  }

  /** The text before the separator strips back to the artist. */
  lemma PaddedArtist(artist: string)
    requires Trimmed(artist)
    ensures Strip(artist + " ") == artist
  {
    assert [] + artist + " " == artist + " ";
    StripPadded([], artist, " ");
  }

  /** The text after the separator, with no dot in it, strips back to the song. */
  lemma PaddedSong(song: string)
    requires Trimmed(song) && '.' !in song
    ensures Strip(DropExtension(" " + song)) == song
  {
    AbsentInConcat(" ", song, '.');
    assert " " + song + [] == " " + song;
    StripPadded(" ", song, []);
  }

  /** Where the pieces of "artist - song" sit when the song holds no hyphen. */
  lemma FormattedLineShape(artist: string, song: string)
    requires '/' !in artist && '/' !in song && '-' !in song
    ensures var line := artist + " - " + song;
            Basename(line) == line && LastIndexOf(line, '-') == |artist| + 1 &&
            line[..|artist| + 1] == artist + " " && line[|artist| + 2..] == " " + song
  {
    var before, after := artist + " ", " " + song;
    SeparatorSplit(artist, song);
    AbsentInConcat(artist, " ", '/');
    AbsentInConcat(" ", song, '/');
    AbsentInConcat(" ", song, '-');
    AroundSeparator(before, '-', after, '/');
    LastIndexAfter(before, '-', after);
  }

  // ---- helpers about the string operations ----

  /** Padding a trimmed string with whitespace does not change what strips to. */
  lemma StripPadded(x: string, r: string, y: string)
    requires AllSpace(x) && AllSpace(y) && Trimmed(r)
    ensures Strip(x + r + y) == r
  {
    var s := x + r + y;
    if r != [] {
      var i := |x|;
      assert s[i] == r[0];
      assert LeadingSpaces(s) == i by { LeadingSpacesOfPadded(x, r + y); }
      var t := Strip(s);
      assert t == s[i..i + |t|];
      // r's last character is kept, so t reaches it; t's last character is
      // not whitespace, so t stops before the padding y.
      AllSpaceFrom(s, i + |t|);
      assert !IsSpace(s[i + |r| - 1]);
      assert |t| >= |r|;
      forall k | i + |r| <= k < |s| ensures IsSpace(s[k]) {
        assert s[k] == y[k - i - |r|];
      }
      assert !IsSpace(s[i + |t| - 1]) by { assert s[i + |t| - 1] == t[|t| - 1]; }
      assert |t| == |r|;
      assert s[i..i + |r|] == r;
    } else {
      assert AllSpace(s) by {
        assert forall k :: 0 <= k < |s| ==> s[k] == if k < |x| then x[k] else y[k - |x|];
      }
    }
  }

  lemma AllSpaceFrom(s: string, j: nat)
    requires j <= |s| && AllSpace(s[j..])
    ensures forall k :: j <= k < |s| ==> IsSpace(s[k])
  {
    forall k | j <= k < |s| ensures IsSpace(s[k]) {
      assert s[k] == s[j..][k - j];
    }
  }

  lemma {:induction false} LeadingSpacesOfPadded(x: string, rest: string)
    requires AllSpace(x) && rest != [] && !IsSpace(rest[0])
    ensures LeadingSpaces(x + rest) == |x|
  {
    if x != [] {
      assert (x + rest)[1..] == x[1..] + rest;
      LeadingSpacesOfPadded(x[1..], rest);
    }
  }

  lemma AbsentInPiece(s: string, i: nat, j: nat, c: char)
    requires i <= j <= |s|
    requires forall k :: i <= k < j ==> s[k] != c
    ensures c !in s[i..j]
  {
  }

  lemma SeparatorSplit(a: string, b: string)
    ensures a + " - " + b == (a + " ") + ['-'] + (" " + b)
  {
    assert " - " == [' ', '-', ' '];
  }

  /** `a`, then the separator `c`, then `b`: the two sides are recovered by
      slicing, and a character absent from both sides and distinct from `c`
      leaves `Basename` alone. */
  lemma AroundSeparator(a: string, c: char, b: string, slash: char)
    requires slash == '/' && c != slash && slash !in a && slash !in b
    ensures var s := a + [c] + b;
            s[..|a|] == a && s[|a| + 1..] == b && Basename(s) == s
  {
    var s := a + [c] + b;
    assert slash !in s;
    LastIndexAbsent(s, slash);
  }

  lemma AbsentInConcat(a: string, b: string, c: char)
    requires c !in a && c !in b
    ensures c !in a + b
  {
  }

  lemma LastIndexAbsent(s: string, c: char)
    requires c !in s
    ensures LastIndexOf(s, c) == -1
  {
  }

  lemma {:induction false} LastIndexAfter(a: string, c: char, b: string)
    requires c !in b
    ensures LastIndexOf(a + [c] + b, c) == |a|
  {
    if b != [] {
      var s := a + [c] + b;
      assert s[..|s| - 1] == a + [c] + b[..|b| - 1];
      LastIndexAfter(a, c, b[..|b| - 1]);
    }
  }

  lemma StripKeepsAbsent(s: string, c: char)
    requires c !in s
    ensures c !in Strip(s)
  {
    var r, i := Strip(s), LeadingSpaces(s);
    assert forall k :: 0 <= k < |r| ==> r[k] == s[i + k];
  }

  lemma DropExtensionKeepsAbsent(s: string, c: char)
    requires c !in s
    ensures c !in DropExtension(s)
  {
    var r := DropExtension(s);
    if '.' in s {
      var ext :| r + ['.'] + ext == s && '.' !in ext;
      assert forall k :: 0 <= k < |r| ==> r[k] == s[k];
    }
  }
}
