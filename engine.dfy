/**
 * The `Ansi_Up` object: the five attribute fields that `process_chunk`
 * updates in place, the style list operations, and `ansi_to_html`, each
 * proved to agree with the pure functions of `Sgr`, `ChunkParser` and
 * `Chunker`.
 */
module Engine {
  import opened Wrappers
  import opened StyleList
  import opened Sgr
  import opened ChunkParser
  import opened Chunker

  class AnsiUp {
    var fg: Option<string>
    var bg: Option<string>
    var brightFg: bool
    var brightBg: bool
    var styles: seq<Decoration>

    /** The five fields as one value. */
    function State(): Attrs
      reads this
    {
      Attrs(fg, bg, brightFg, brightBg, styles)
    }

    /** `new Ansi_Up()`: no colours, no bright markers, no styles. */
    constructor ()
      ensures State() == Reset
      ensures WellFormed(State())
    {
      fg := None;
      bg := None;
      brightFg := false;
      brightBg := false;
      styles := [];
    }

    /** `add_style(klass)`: appends the class, even when it is already there. */
    method AddStyle(klass: Decoration)
      modifies this`styles
      ensures styles == old(styles) + [klass]
    {
      styles := styles + [klass];
    }

    /**
     * `remove_style(klass)` with one class: `some` walks the indices of the
     * list as long as it was at the start, and deletes in place with
     * `splice` wherever it meets the class, so the entry that moves into
     * the freed slot is never looked at.
     */
    method RemoveStyle(klass: Decoration)
      modifies this`styles
      ensures styles == RemoveSkip(old(styles), klass)
    {
      var len := |styles|;
      var i := 0;
      while i < len
        invariant i <= len && |styles| <= len
        invariant Pending(styles, i, klass) == RemoveSkip(old(styles), klass)
        decreases len - i
      {
        if i < |styles| && styles[i] == klass {
          PendingSplice(styles, i, klass);
          styles := styles[..i] + styles[i + 1..];
        } else if i < |styles| {
          PendingKeep(styles, i, klass);
        } else {
          PendingPastEnd(styles, i, klass);
          PendingPastEnd(styles, i + 1, klass);
        }
        i := i + 1;
      }
      PendingPastEnd(styles, i, klass);
    }

    /** `remove_style` with an array: removes each class of the array in turn. */
    method RemoveStyles(klasses: seq<Decoration>)
      modifies this`styles
      ensures styles == RemoveEach(old(styles), klasses)
    {
      for i := 0 to |klasses|
        invariant styles == RemoveEach(old(styles), klasses[..i])
      {
        assert klasses[..i + 1][..i] == klasses[..i];
        RemoveStyle(klasses[i]);
      }
      assert klasses[..|klasses|] == klasses;
    }

    /** One pass of the dispatch in `process_chunk`: the fields change as one SGR code says. */
    method ApplyCode(code: Option<nat>)
      modifies this
      ensures State() == Step(old(State()), code)
    {
      if code.None? || code.value == 0 {
        fg := None;
        bg := None;
        brightFg := false;
        brightBg := false;
        styles := [];
        return;
      }
      var num := code.value;
      if num == 1 {
        brightFg := true;
      } else if num == 2 || num == 22 {
        brightFg := false;
      } else if num == 3 {
        AddStyle(Italic);
      } else if num == 4 {
        RemoveStyle(DoubleUnderline);
        AddStyle(Underline);
      } else if num == 5 {
        RemoveStyle(BlinkFast);
        AddStyle(BlinkSlow);
      } else if num == 6 {
        RemoveStyle(BlinkSlow);
        AddStyle(BlinkFast);
      } else if num == 7 || num == 8 {
      } else if num == 9 {
        RemoveStyle(DoubleStrike);
        AddStyle(Strike);
      } else if 10 <= num <= 20 {
      } else if num == 21 {
        RemoveStyle(Underline);
        AddStyle(DoubleUnderline);
      } else if num == 23 {
        RemoveStyle(Italic);
      } else if num == 24 {
        RemoveStyles([Underline, DoubleUnderline]);
      } else if num == 25 {
        RemoveStyles([BlinkSlow, BlinkFast]);
      } else if num == 27 || num == 28 {
      } else if num == 29 {
        RemoveStyles([Strike, DoubleStrike]);
      } else if 30 <= num < 38 {
        fg := Some(ColorClassName(num % 10, true));
      } else if num == 39 {
        fg := None;
      } else if 40 <= num < 48 {
        bg := Some(ColorClassName(num % 10, false));
        brightBg := false;
      } else if num == 48 {
      } else if num == 49 {
        bg := None;
      } else if num == 53 {
        AddStyle(Overline);
      } else if num == 55 {
        RemoveStyle(Overline);
      } else if num == 64 {
        RemoveStyle(Strike);
        AddStyle(DoubleStrike);
      } else if num == 65 {
        RemoveStyles([Strike, DoubleStrike]);
      } else if 90 <= num < 98 {
        fg := Some(ColorClassName(num % 10, true));
        brightFg := true;
      } else if 100 <= num < 108 {
        bg := Some(ColorClassName(num % 10, false));
        brightBg := false;
      }
    }

    /** The dispatch loop of `process_chunk`: the parsed codes applied left to right. */
    method ApplyCodes(nums: seq<Option<nat>>)
      modifies this
      ensures State() == Steps(old(State()), nums)
    {
      for i := 0 to |nums|
        invariant State() == Steps(old(State()), nums[..i])
      {
        assert nums[..i + 1][..i] == nums[..i];
        ApplyCode(nums[i]);
      }
      assert nums[..|nums|] == nums;
    }

    /**
     * `process_chunk(text)`: find the parameters and the text they colour,
     * apply the parameters left to right, and render the text with the
     * resulting classes. A chunk without `m` comes back untouched.
     */
    method ProcessChunk(text: string) returns (html: string)
      modifies this
      ensures (html, State()) == Chunk(old(State()), text)
      ensures WellFormed(old(State())) ==> WellFormed(State())
    {
      var found := FindSgr(text);
      if found.None? {
        return text;
      }
      var p, q := found.value.0, found.value.1;
      ghost var before := State();
      ApplyCodes(Tokens(text[p..q]));
      html := Render(State(), text[q + 1..]);
      ChunkAtMatch(before, text, p, q);
      if WellFormed(before) {
        ChunkPreservesWellFormed(before, text);
      }
    }

    /**
     * `ansi_to_html(txt)`: the text before the first ESC `[` as it is, then
     * every later piece through `process_chunk`, in order, concatenated.
     */
    method AnsiToHtml(txt: string) returns (html: string)
      modifies this
      ensures (html, State()) == Convert(old(State()), txt)
      ensures WellFormed(old(State())) ==> WellFormed(State())
    {
      var parts := SplitCsi(txt);
      html := parts[0];
      ghost var st := State();
      assert parts[1..1] == [] && parts[0] + "" == parts[0];
      for i := 1 to |parts|
        invariant html == parts[0] + Thread(Chunk, st, parts[1..i]).0
        invariant State() == Thread(Chunk, st, parts[1..i]).1
      {
        var out := ProcessChunk(parts[i]);
        ThreadStep(Chunk, st, parts, i, html, out, State());
        html := html + out;
      }
      assert parts[1..|parts|] == parts[1..];
      if WellFormed(st) {
        ConvertPreservesWellFormed(st, txt);
      }
    }
  }
}
