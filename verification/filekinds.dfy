/** Sorting incoming files into the video list and the subtitle list by
    extension, and handing the result to the buffer, as the drop area and
    the browse button do. */
module FileKinds {
  import opened Buffer

  /** ASCII lower-casing, the only case folding a non-unicode case-insensitive
      regular expression applies to these letters. */
  function LowerAscii(c: char): (r: char)
    ensures 'A' <= c <= 'Z' ==> r != c && 'a' <= r <= 'z'
    ensures !('A' <= c <= 'Z') ==> r == c
  {
    if 'A' <= c <= 'Z' then (c as int + 32) as char else c
  }

  /** The regular expression `\.(srt|ssa|ass)$` with the ignore-case flag:
      a dot, then one of the three extensions, at the very end of the name. */
  predicate IsSubtitle(name: string): (r: bool)
    ensures r ==> |name| >= 4 && name[|name| - 4] == '.'
  {
    && |name| >= 4
    && name[|name| - 4] == '.'
    && var ext := [LowerAscii(name[|name| - 3]), LowerAscii(name[|name| - 2]), LowerAscii(name[|name| - 1])];
       ext == "srt" || ext == "ssa" || ext == "ass"
  }

  /** Two characters equal up to ASCII case. */
  predicate SameIgnoringCase(a: char, b: char)
  {
    a == b || ('a' <= b <= 'z' && a as int == b as int - 32)
  }

  /** `s` ends with the lower-case `suffix`, ignoring ASCII case. */
  predicate EndsWithIgnoringCase(s: string, suffix: string)
  {
    |suffix| <= |s| && forall i :: 0 <= i < |suffix| ==> SameIgnoringCase(s[|s| - |suffix| + i], suffix[i])
  }

  /** Against a lower-case letter, matching up to case is matching after
      lower-casing. */
  lemma SameIgnoringCaseLower(a: char, b: char)
    requires 'a' <= b <= 'z'
    ensures SameIgnoringCase(a, b) <==> LowerAscii(a) == b
  {
  }

  /** Ending in a dot and a three-letter lower-case extension, ignoring
      case, is ending in a dot whose three following characters lower-case
      to the extension. */
  lemma EndsWithExtension(name: string, ext: string)
    requires |ext| == 3 && forall i :: 0 <= i < 3 ==> 'a' <= ext[i] <= 'z'
    ensures EndsWithIgnoringCase(name, "." + ext) <==>
      && |name| >= 4
      && name[|name| - 4] == '.'
      && [LowerAscii(name[|name| - 3]), LowerAscii(name[|name| - 2]), LowerAscii(name[|name| - 1])] == ext
  {
    var suffix := "." + ext;
    if |name| >= 4 {
      var n := |name|;
      SameIgnoringCaseLower(name[n - 3], ext[0]);
      SameIgnoringCaseLower(name[n - 2], ext[1]);
      SameIgnoringCaseLower(name[n - 1], ext[2]);
      assert suffix[1..] == ext;
      if EndsWithIgnoringCase(name, suffix) {
        assert SameIgnoringCase(name[n - 4 + 0], suffix[0]);
        assert SameIgnoringCase(name[n - 4 + 1], suffix[1]);
        assert SameIgnoringCase(name[n - 4 + 2], suffix[2]);
        assert SameIgnoringCase(name[n - 4 + 3], suffix[3]);
      }
    }
  }

  /** A name is a subtitle name exactly when it ends in `.srt`, `.ssa` or
      `.ass` in any mix of upper and lower case. */
  lemma IsSubtitleIffExtension(name: string)
    ensures IsSubtitle(name) <==>
      EndsWithIgnoringCase(name, ".srt") || EndsWithIgnoringCase(name, ".ssa") || EndsWithIgnoringCase(name, ".ass")
  {
    EndsWithExtension(name, "srt");
    EndsWithExtension(name, "ssa");
    EndsWithExtension(name, "ass");
    assert "." + "srt" == ".srt" && "." + "ssa" == ".ssa" && "." + "ass" == ".ass";
  }

  /** Some names and how they are classified. */
  lemma IsSubtitleExamples()
    ensures IsSubtitle("movie.srt") && IsSubtitle("MOVIE.SRT") && IsSubtitle("a.AsS")
    ensures IsSubtitle(".ssa")
    ensures !IsSubtitle("movie.mp4") && !IsSubtitle("movie.srt.mp4") && !IsSubtitle("srt")
    ensures !IsSubtitle("movie_srt") && !IsSubtitle("movie.ass ")
  {
  }

  /** The files of `files` whose subtitle test equals `subtitle`, in order. */
  function Select(files: seq<Handle>, subtitle: bool): (r: seq<Handle>)
    ensures |r| <= |files|
  {
    if |files| == 0 then []
    else if IsSubtitle(files[0].name) == subtitle then [files[0]] + Select(files[1..], subtitle)
    else Select(files[1..], subtitle)
  }

  /** Exactly the files of the requested kind are selected. */
  lemma {:induction false} SelectMembers(files: seq<Handle>, subtitle: bool)
    ensures forall h :: h in Select(files, subtitle) <==> h in files && IsSubtitle(h.name) == subtitle
  {
    if |files| > 0 {
      SelectMembers(files[1..], subtitle);
      assert files == [files[0]] + files[1..];
    }
  }

  /** Every input file lands in exactly one of the two selections:
      together they hold the input, counted with multiplicity. */
  lemma {:induction false} SelectPartitions(files: seq<Handle>)
    ensures multiset(Select(files, false)) + multiset(Select(files, true)) == multiset(files)
  {
    if |files| > 0 {
      SelectPartitions(files[1..]);
      assert files == [files[0]] + files[1..];
    }
  }

  /** Selection goes file by file, so it distributes over concatenation. */
  lemma {:induction false} SelectAppend(a: seq<Handle>, b: seq<Handle>, subtitle: bool)
    ensures Select(a + b, subtitle) == Select(a, subtitle) + Select(b, subtitle)
  {
    if |a| > 0 {
      assert (a + b)[1..] == a[1..] + b;
      SelectAppend(a[1..], b, subtitle);
      assert (a + b)[0] == a[0];
    } else {
      assert a + b == b;
    }
  }

  /** `filterFileHandles`: subtitle files to one list, everything else to the
      other. */
  function FilterFileHandles(files: seq<Handle>): (r: Lists)
    ensures forall h :: h in r.subtitles <==> h in files && IsSubtitle(h.name)
    ensures forall h :: h in r.videos <==> h in files && !IsSubtitle(h.name)
  {
    SelectMembers(files, false);
    SelectMembers(files, true);
    Lists(Select(files, false), Select(files, true))
  }

  lemma FilterFileHandlesIsSelect(files: seq<Handle>)
    ensures FilterFileHandles(files) == Lists(Select(files, false), Select(files, true))
  {
  }

  /** Every input file lands in exactly one of the two lists. */
  lemma FilterFileHandlesPartitions(files: seq<Handle>)
    ensures multiset(FilterFileHandles(files).videos) + multiset(FilterFileHandles(files).subtitles)
         == multiset(files)
  {
    FilterFileHandlesIsSelect(files);
    SelectPartitions(files);
  }

  /** Classification goes file by file, so each list keeps input order. */
  lemma FilterFileHandlesAppend(a: seq<Handle>, b: seq<Handle>)
    ensures FilterFileHandles(a + b).videos == FilterFileHandles(a).videos + FilterFileHandles(b).videos
    ensures FilterFileHandles(a + b).subtitles == FilterFileHandles(a).subtitles + FilterFileHandles(b).subtitles
  {
    FilterFileHandlesIsSelect(a);
    FilterFileHandlesIsSelect(b);
    FilterFileHandlesIsSelect(a + b);
    SelectAppend(a, b, false);
    SelectAppend(a, b, true);
  }

  /** The drop area and the browse button: classify the files, then add both
      lists to the buffer. */
  function Import(b: Lists, files: seq<Handle>): (r: Lists)
    ensures DistinctNames(r.videos) && DistinctNames(r.subtitles)
  {
    var sorted := FilterFileHandles(files);
    AddToBuf(b, sorted.videos, sorted.subtitles)
  }

  /** After an import, every file's name is in the list of its kind and the
      entries that were already buffered are still in front, in order. */
  lemma ImportFiles(b: Lists, files: seq<Handle>)
    requires DistinctNames(b.videos) && DistinctNames(b.subtitles)
    ensures b.videos <= Import(b, files).videos && b.subtitles <= Import(b, files).subtitles
    ensures forall i :: 0 <= i < |files| && IsSubtitle(files[i].name) ==>
      FindIndex(Import(b, files).subtitles, files[i].name) != -1
    ensures forall i :: 0 <= i < |files| && !IsSubtitle(files[i].name) ==>
      FindIndex(Import(b, files).videos, files[i].name) != -1
  {
    var sorted := FilterFileHandles(files);
    AddToBufKeepsBuffered(b, sorted.videos, sorted.subtitles);
    assert forall i :: 0 <= i < |files| && IsSubtitle(files[i].name) ==> files[i] in sorted.subtitles;
    assert forall i :: 0 <= i < |files| && !IsSubtitle(files[i].name) ==> files[i] in sorted.videos;
  }
}
