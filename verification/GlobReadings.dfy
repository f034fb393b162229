/** Every pattern text has a reading: parts of characters and classes between its slashes, and the paths it
    matches are those the reading means. */
module GlobReadings {
  import opened Wrappers
  import opened Text
  import opened GlobPatterns
  import opened GlobTexts
  import opened GlobMeaning

  lemma {:induction false} TailPart(s: string)
    requires s != "" && s[|s| - 1] != '/'
    ensures PathParts(s) != []
  {
    if s[0] == '/' {
      TailPart(s[1..]);
      FirstSeparator(s[1..], s, '/');
    } else {
      HeadPart(s);
    }
  }

  lemma {:induction false} PopEnds(s: string)
    requires s != ""
    ensures var r := PopSlashes(s); r != "" && r[0] == s[0] && (|r| == 1 || r[|r| - 1] != '/')
  {
    if |s| > 1 && s[|s| - 1] == '/' {
      PopEnds(s[..|s| - 1]);
    }
  }

  /** A slash inside, with other characters around it, makes several parts. */
  lemma SeveralParts(body: string)
    requires body != "" && body[0] != '/' && body[|body| - 1] != '/'
    ensures '/' in body <==> |PathParts(body)| > 1
  {
    if '/' in body {
      var i :| 0 <= i < |body| && body[i] == '/';
      var a, b := body[..i], body[i + 1..];
      assert body == a + "/" + b;
      PathConcat(a, b);
      HeadPart(a);
      TailPart(b);
    } else {
      SinglePart(body);
    }
  }

  lemma PoppedEnds(s: string)
    requires PathParts(s) != []
    ensures s != "" && PopSlashes(s) != "" && PopSlashes(s)[0] == s[0]
    ensures PopSlashes(s)[|PopSlashes(s)| - 1] != '/'
  {
    NothingInSlashes();
    PopEnds(s);
    PopSlashesParts(s);
    hide PathParts, PopSlashes;
    if |PopSlashes(s)| == 1 && PopSlashes(s)[0] == '/' {
      OneSlash(PopSlashes(s));
    }
  }

  lemma OneSlash(s: string)
    requires |s| == 1 && s[0] == '/'
    ensures PathParts(s) == []
  {
    NothingInSlashes();
    assert s == "/";
  }

  lemma TrimmedLast(s: string)
    requires TrimStartOf(s, '/') != ""
    ensures TrimStartOf(s, '/')[|TrimStartOf(s, '/')| - 1] == s[|s| - 1]
  {
  }

  /** What is left of a text without its outer slashes. */
  lemma BodyEnds(s: string)
    requires PathParts(s) != []
    ensures var popped := PopSlashes(s);
      var body := TrimStartOf(popped, '/');
      && s != "" && popped != "" && popped[0] == s[0] && PathParts(body) == PathParts(s)
      && body != "" && body[0] != '/' && body[|body| - 1] != '/'
  {
    hide PathParts, PopSlashes, TrimStartOf;
    NothingInSlashes();
    PoppedEnds(s);
    BodyParts(s);
    TrimmedLast(PopSlashes(s));
  }

  lemma BodyParts(s: string)
    ensures PathParts(PopSlashes(s)) == PathParts(s)
    ensures PathParts(TrimStartOf(PopSlashes(s), '/')) == PathParts(s)
  {
    PopSlashesParts(s);
    TrimStartParts(PopSlashes(s), '/');
  }

  lemma NothingInSlashes()
    ensures PathParts("") == [] && PathParts("/") == []
  {
    NonEmptySingle("");
    FirstSeparator("", "/", '/');
  }

  /** What anchors a pattern: a slash in front, or more than one part. */
  lemma AnchoredByParts(text: string)
    requires PathParts(Slashed(text)) != []
    ensures CompiledAnchored(text) <==> StartsSlashed(text) || |PathParts(Slashed(text))| > 1
    ensures EndsWithSlash(Slashed(text)) <==> EndsSlashed(text)
  {
    hide PathParts, PopSlashes, TrimStartOf, Slashed;
    NothingInSlashes();
    BodyEnds(Slashed(text));
    SeveralParts(TrimStartOf(PopSlashes(Slashed(text)), '/'));
    assert Slashed(text) != "/";
    assert |Slashed(text)| == 1 ==> Slashed(text) == [Slashed(text)[0]];
  }

  /** The parts read the text. */
  ghost predicate IsReading(text: string, parts: seq<Part>) {
    && parts != [] && (forall part :: part in parts ==> SpelledPart(part))
    && Texts(parts) == PathParts(Slashed(text))
  }

  /** Whatever slashes and backslashes a text has, if its parts are spelled it compiles, and it matches exactly the
      paths they mean: at any depth only if the text is one part without a slash in front, and with a slash at the
      end only what lies in a matching directory. */
  lemma ReadingMeans(text: string, parts: seq<Part>, path: string) returns (glob: Glob)
    requires Tight(text) && IsReading(text, parts)
    ensures Compile(text) == Ok(glob)
    ensures Covers(glob, path) <==> PatternMeans(StartsSlashed(text), parts, EndsSlashed(text), path)
  {
    hide Compile, CompileParts, PathParts, SpelledPart, PartsMean, SegmentsMatch, Trim, CompiledAnchored, Slashed;
    hide Texts, EndsWithSlash, EndsSlashed, StartsSlashed;
    TrimSolid(text);
    assert |Texts(parts)| == |parts|;
    AnchoredByParts(text);
    CompileIsBuilt(text);
    var segments := PartsCompile(parts, !StartsSlashed(text) && |parts| == 1);
    glob := Glob(text, segments, EndsSlashed(text));
  }

  lemma {:induction false} PartsCompiled(segments: seq<Segment>, texts: seq<string>, i: nat)
    requires i < |texts| && texts[i] != "" && texts[i] != "**" && CompileParts(segments, texts).Ok?
    ensures SegmentTokens(texts[i]).Ok?
    decreases i
  {
    hide SegmentTokens;
    if i > 0 {
      assert texts[1..][i - 1] == texts[i];
      if texts[0] == "" {
        PartsCompiled(segments, texts[1..], i - 1);
      } else if texts[0] == "**" {
        PartsCompiled(PushAnyDirectories(segments), texts[1..], i - 1);
      } else {
        PartsCompiled(segments + [Pattern(SegmentTokens(texts[0]).value)], texts[1..], i - 1);
      }
    }
  }

  lemma PartReading(text: string) returns (part: Part)
    requires text != "" && '/' !in text && '\\' !in text && (text == "**" || SegmentTokens(text).Ok?)
    ensures SpelledPart(part) && PartText(part) == text
  {
    if text == "**" {
      part := AnyDepth;
    } else {
      var es := PartIsSpelled(text, 0);
      assert text[0..] == text;
      part := Named(es);
    }
  }

  lemma {:induction false} PartsReading(texts: seq<string>) returns (parts: seq<Part>)
    requires forall i :: 0 <= i < |texts| ==> texts[i] != "" && '/' !in texts[i] && '\\' !in texts[i]
    requires forall i :: 0 <= i < |texts| ==> texts[i] == "**" || SegmentTokens(texts[i]).Ok?
    ensures Texts(parts) == texts && forall part :: part in parts ==> SpelledPart(part)
  {
    hide SegmentTokens, SpelledPart, PartText;
    if texts == [] {
      parts := [];
    } else {
      var first := PartReading(texts[0]);
      var rest := PartsReading(texts[1..]);
      parts := [first] + rest;
      TextsHead(parts);
      assert parts[1..] == rest;
    }
  }

  lemma NoBackslashes(text: string)
    ensures forall i :: 0 <= i < |PathParts(Slashed(text))| ==> '\\' !in PathParts(Slashed(text))[i]
  {
    NoneInParts(Slashed(text), '\\');
    NonEmptyMembers(Split(Slashed(text), '/'));
    forall i | 0 <= i < |PathParts(Slashed(text))| ensures '\\' !in PathParts(Slashed(text))[i] {
      assert PathParts(Slashed(text))[i] in PathParts(Slashed(text));
    }
  }

  lemma {:induction false} NoneInParts(s: string, c: char)
    requires c !in s
    ensures forall part :: part in Split(s, '/') ==> c !in part
  {
    if s != "" {
      NoneInParts(s[1..], c);
    }
  }

  /** Every text that compiles has such a reading, so the meaning above is that of every pattern. */
  lemma CompiledHasReading(text: string, glob: Glob) returns (parts: seq<Part>)
    requires Tight(text) && Compile(text) == Ok(glob)
    ensures IsReading(text, parts)
  {
    hide Compile, CompileParts, SegmentTokens, Trim, CompiledAnchored, SpelledPart, Split, NonEmpty;
    TrimSolid(text);
    CompileIsBuilt(text);
    var texts := PathParts(Slashed(text));
    PathNames(Slashed(text));
    NoBackslashes(text);
    forall i: nat | i < |texts| ensures texts[i] == "**" || SegmentTokens(texts[i]).Ok? {
      if texts[i] != "**" {
        PartsCompiled(if CompiledAnchored(text) then [] else [AnyDirectories], texts, i);
      }
    }
    parts := PartsReading(texts);
  }
}
