/**
  `TodoItemDelegate` of `src/gui/MainWindow.h`: how a list row's display text
  is taken apart for painting, how tall a row is, and which mouse releases
  tick the checkbox. Drawing itself is left out.
*/
module ItemDelegate {
  import opened Wrappers
  import opened Text

  /** The priority marker `refreshTodoList` puts before a high-priority open title. */
  const HighMarker: string := "● "
  /** The two spaces that stand in for the marker otherwise. */
  const PlainMarker: string := "  "

  /** The foreground colour of a finished row. */
  const CompletedColour: string := "#E0E0E0"

  /** The two parts `paint` draws: the title line without its marker, and the metadata line. */
  datatype Decoded = Decoded(title: string, metadata: string)

  /** `title.mid(2)` after a leading `"● "` or `"  "`, at most once. */
  function StripMarker(line: string): (title: string)
    ensures |title| == |line| || |title| == |line| - 2
    ensures title == line[|line| - |title|..]
    ensures |line| < 2 || (line[..2] != HighMarker && line[..2] != PlainMarker) ==> title == line
  {
    if |line| >= 2 && line[..2] == HighMarker then line[2..]
    else if |line| >= 2 && line[..2] == PlainMarker then line[2..]
    else line
  }

  /** Either marker put in front of a title is taken off again, and only it. */
  lemma StripMarkerOfMarked(title: string)
    ensures StripMarker(HighMarker + title) == title
    ensures StripMarker(PlainMarker + title) == title
  {
    assert (HighMarker + title)[..2] == HighMarker;
    assert (PlainMarker + title)[..2] == PlainMarker;
  }

  /** Line 0 of the row text (marker removed) and line 1, each "" when missing. */
  function DecodeRow(text: string): Decoded {
    var lines := Split(text);
    Decoded(StripMarker(LineAt(lines, 0)), LineAt(lines, 1))
  }

  /** `isCompleted` in `paint`: the row's foreground is the grey of finished rows. */
  predicate PaintedCompleted(foreground: Option<string>) {
    foreground == Some(CompletedColour)
  }

  /** Whether line 1 has anything but white space: `paint` draws it, `sizeHint` makes room. */
  predicate HasMetadata(text: string) {
    var lines := Split(text);
    |lines| > 1 && Trim(lines[1]) != ""
  }

  /** `sizeHint` height: 76 with a metadata line, 60 without. */
  function RowHeight(text: string): (h: int)
    ensures h == 76 || h == 60
    ensures h == 76 <==> HasMetadata(text)
  {
    if HasMetadata(text) then 76 else 60
  }

  /** The metadata text `paint` draws under the title: line 1 trimmed, when anything is left. */
  function DrawnMetadata(text: string): Option<string> {
    var m := Trim(DecodeRow(text).metadata);
    if m != "" then Some(m) else None
  }

  /**
    `sizeHint` and `paint` agree: a row is tall exactly when a metadata line
    is drawn in it, that is, when line 1 is not all white space.
  */
  lemma TallExactlyWhenMetadataDrawn(text: string)
    ensures RowHeight(text) == 76 <==> DrawnMetadata(text).Some?
    ensures RowHeight(text) == 76 <==> !IsBlank(DecodeRow(text).metadata)
  {
    TrimEmptyIffBlank(DecodeRow(text).metadata);
  }

  /** The rectangle `option.rect` of a row, as `QRect` keeps it. */
  datatype Rect = Rect(left: int, top: int, width: int, height: int)

  /** `QRect::contains`: the right and bottom edges are `left + width - 1` and `top + height - 1`. */
  predicate Contains(r: Rect, x: int, y: int) {
    r.left <= x <= r.left + r.width - 1 && r.top <= y <= r.top + r.height - 1
  }

  /** The 22-by-22 checkbox square, 18 pixels in from the row's top-left corner. */
  function CheckboxRect(row: Rect): Rect {
    Rect(row.left + 18, row.top + 18, 22, 22)
  }

  datatype MouseEvent = Release(x: int, y: int) | OtherEvent

  /** What `editorEvent` does with an event. */
  datatype Handling = CheckboxClicked | PassedToBase

  function EditorEvent(e: MouseEvent, row: Rect): Handling {
    if e.Release? && Contains(CheckboxRect(row), e.x, e.y) then CheckboxClicked else PassedToBase
  }

  /**
    Exactly the releases on the pixels `left + 18 .. left + 39` by
    `top + 18 .. top + 39` toggle the row; everything else goes to the base class.
  */
  lemma CheckboxHitArea(e: MouseEvent, row: Rect)
    ensures EditorEvent(e, row) == CheckboxClicked <==>
      e.Release? && row.left + 18 <= e.x < row.left + 40 && row.top + 18 <= e.y < row.top + 40
  {
  }
}
