/**
 * The student search box of the signoff page (static/labs/js/autocomplete.js):
 * the `StudentAutocomplete` object with its debounce timer, last query,
 * result list, highlighted index and the visibility of its drop-down.
 *
 * Browser events become methods: an `input` event, the debounce timer
 * firing, the search answer arriving or failing, a key press, hovering or
 * clicking an item, a click outside. The timer is a pending query rather
 * than a clock; the network request is the query the fetch would send.
 */
module Autocomplete {
  import opened Strings
  import opened Records

  /** `options.minChars`; the page keeps the default. */
  const MinChars: nat := 2

  /**
   * A block the results container can hold: the loading message, the
   * drawn list of students, the "no students" message or an error message.
   * The container holds a sequence of them, since `renderError` appends
   * to whatever is already drawn.
   */
  datatype Piece = LoadingText | StudentList | NoResultsText | ErrorText

  /** The keys `onKeyDown` distinguishes; every other key is `OtherKey`. */
  datatype Key = ArrowDown | ArrowUp | Enter | Escape | OtherKey

  /**
   * What a key press did: ignored (no `preventDefault`), handled, or
   * handled and then stopped by a TypeError (Enter on an index past the
   * end of the results reads `undefined.name`).
   */
  datatype KeyOutcome = Ignored | Handled | Threw

  /**
   * JavaScript's `%` on integers: the remainder of division truncated
   * toward zero, so it takes the sign of the dividend.
   */
  function JsRemainder(a: int, b: int): (r: int)
    requires b > 0
    ensures a >= 0 ==> 0 <= r < b
    ensures a < 0 ==> -b < r <= 0
  {
    if a >= 0 then a % b else 0 - ((0 - a) % b)
  }

  /** A dividend below twice the divisor loses the divisor at most once. */
  lemma ModSmall(a: int, b: int)
    requires b > 0
    ensures 0 <= a < 2 * b ==> a % b == if a < b then a else a - b
  {
    if 0 <= a < 2 * b {
      ModBelowTwice(a, b);
    }
  }

  lemma ModBelowTwice(a: int, b: int)
    requires b > 0 && 0 <= a < 2 * b
    ensures a % b == if a < b then a else a - b
  {
    var q := a / b;
    assert a == b * q + a % b;
  }

  /** `selectNext`: the index after `i`, wrapping from the last item to the first. */
  function NextIndex(i: int, n: nat): (r: int)
    requires n > 0
    ensures i >= -1 ==> 0 <= r < n
    ensures -1 <= i < n - 1 ==> r == i + 1
    ensures i == n - 1 ==> r == 0
  {
    ModSmall(i + 1, n);
    JsRemainder(i + 1, n)
  }

  /**
   * `selectPrevious`: the index before `i`, wrapping from the first item to
   * the last. From no selection (-1) it lands on the second-to-last item,
   * or on the only one when there is one (JavaScript's -0 indexes as 0).
   */
  function PrevIndex(i: int, n: nat): (r: int)
    requires n > 0
    ensures i >= -1 ==> 0 <= r < n
    ensures 0 < i <= n ==> r == i - 1
    ensures i == 0 ==> r == n - 1
    ensures i == -1 && n >= 2 ==> r == n - 2
    ensures i == -1 && n == 1 ==> r == 0
  {
    ModSmall(i - 1 + n, n);
    ModSmall(1 - n, n);
    JsRemainder(i - 1 + n, n)
  }

  /** Stepping down then up, or up then down, returns to the highlighted item. */
  lemma {:induction false} NextPrevInverse(i: int, n: nat)
    requires 0 <= i < n
    ensures PrevIndex(NextIndex(i, n), n) == i
    ensures NextIndex(PrevIndex(i, n), n) == i
  {
    if i == n - 1 {
      assert NextIndex(i, n) == 0;
    } else {
      assert NextIndex(i, n) == i + 1;
    }
    if i == 0 {
      assert PrevIndex(i, n) == n - 1;
    } else {
      assert PrevIndex(i, n) == i - 1;
    }
  }

  /** `k` presses of the down arrow from index `i`. */
  function Iterate(i: int, n: nat, k: nat): (r: int)
    requires 0 <= i < n
    ensures 0 <= r < n
    decreases k
  {
    if k == 0 then i else NextIndex(Iterate(i, n, k - 1), n)
  }

  /** Before reaching the last item, each press moves one item down. */
  lemma {:induction false} IterateUpToEnd(i: int, n: nat, k: nat)
    requires 0 <= i < n && k <= n - 1 - i
    ensures Iterate(i, n, k) == i + k
    decreases k
  {
    if k > 0 {
      IterateUpToEnd(i, n, k - 1);
    }
  }

  /** Past the last item, the presses continue from the first. */
  lemma {:induction false} IterateWraps(i: int, n: nat, k: nat)
    requires 0 <= i < n && n - i <= k <= n
    ensures Iterate(i, n, k) == i + k - n
    decreases k
  {
    if k == n - i {
      IterateUpToEnd(i, n, k - 1);
    } else {
      IterateWraps(i, n, k - 1);
    }
  }

  /** `n` presses of the down arrow over `n` results come back to the highlighted item. */
  lemma NextCycles(i: int, n: nat)
    requires 0 <= i < n
    ensures Iterate(i, n, n) == i
  {
    IterateWraps(i, n, n);
  }

  /** A `StudentAutocomplete` bound to the search box. */
  class StudentAutocomplete {
    /** The text of the search box. */
    var inputValue: string
    /** Whether the results container is displayed (`style.display === 'block'`). */
    var visible: bool
    /** The blocks in the results container, in document order. */
    var panel: seq<Piece>
    var selectedIndex: int
    /** The students of the last search answer. */
    var results: seq<StudentHit>
    var lastQuery: string
    /** The query of the debounce timer still to fire, if any. */
    var pending: Option<string>
    /** Whether an `onSelect` callback was given. */
    const hasOnSelect: bool
    /** The students handed to `onSelect`, in order. */
    var selections: seq<StudentHit>

    /** No index below "nothing highlighted". */
    ghost predicate Valid()
      reads this
    {
      selectedIndex >= -1
    }

    /** The constructor: empty query, no results, nothing highlighted, container hidden. */
    constructor (text: string, onSelect: bool)
      ensures Valid()
      ensures inputValue == text && !visible && panel == [] && selectedIndex == -1
      ensures results == [] && lastQuery == "" && pending.None? && hasOnSelect == onSelect && selections == []
    {
      inputValue := text;
      visible := false;
      panel := [];
      selectedIndex := -1;
      results := [];
      lastQuery := "";
      pending := None;
      hasOnSelect := onSelect;
      selections := [];
    }

    /** `hideResults`: hide the container and drop the highlight. */
    method HideResults()
      modifies this
      ensures !visible && selectedIndex == -1
      ensures inputValue == old(inputValue) && panel == old(panel) && results == old(results)
      ensures lastQuery == old(lastQuery) && pending == old(pending) && selections == old(selections)
    {
      visible := false;
      selectedIndex := -1;
    }

    /** `showLoading`: replace the container's content by the loading message and show it. */
    method ShowLoading()
      modifies this
      ensures visible && panel == [LoadingText]
      ensures inputValue == old(inputValue) && selectedIndex == old(selectedIndex) && results == old(results)
      ensures lastQuery == old(lastQuery) && pending == old(pending) && selections == old(selections)
    {
      panel := [LoadingText];
      visible := true;
    }

    /**
     * `onInput` after the box changed to `value`: the timer is cleared; a
     * trimmed query under two characters hides the results; the last query
     * again schedules nothing; any other query becomes the last query,
     * shows the loading message and schedules one fetch for it.
     */
    method OnInput(value: string)
      requires Valid()
      modifies this
      ensures Valid()
      ensures inputValue == value && results == old(results) && selections == old(selections)
      ensures |JsTrim(value)| < MinChars ==>
        && !visible && selectedIndex == -1 && panel == old(panel)
        && lastQuery == old(lastQuery) && pending.None?
      ensures |JsTrim(value)| >= MinChars && JsTrim(value) == old(lastQuery) ==>
        && visible == old(visible) && selectedIndex == old(selectedIndex) && panel == old(panel)
        && lastQuery == old(lastQuery) && pending.None?
      ensures |JsTrim(value)| >= MinChars && JsTrim(value) != old(lastQuery) ==>
        && visible && panel == [LoadingText] && selectedIndex == old(selectedIndex)
        && lastQuery == JsTrim(value) && pending == Some(JsTrim(value))
    {
      inputValue := value;
      var query := JsTrim(value);
      pending := None;
      if |query| < MinChars {
        HideResults();
        return;
      }
      if query == lastQuery {
        return;
      }
      lastQuery := query;
      ShowLoading();
      pending := Some(query);
    }

    /** The debounce timer fires: the fetch for its query starts. */
    method TimerFires() returns (query: string)
      requires pending.Some?
      modifies this
      ensures query == old(pending).value && pending.None?
      ensures inputValue == old(inputValue) && visible == old(visible) && panel == old(panel)
      ensures selectedIndex == old(selectedIndex) && results == old(results)
      ensures lastQuery == old(lastQuery) && selections == old(selections)
    {
      query := pending.value;
      pending := None;
    }

    /** `onFocus`: a query of two characters or more is fetched at once, without the timer. */
    method OnFocus() returns (fetched: Option<string>)
      ensures fetched.Some? <==> |JsTrim(inputValue)| >= MinChars
      ensures fetched.Some? ==> fetched.value == JsTrim(inputValue)
    {
      var query := JsTrim(inputValue);
      if |query| >= MinChars {
        fetched := Some(query);
      } else {
        fetched := None;
      }
    }

    /**
     * `renderResults`: a non-empty list is drawn, shown and un-highlighted;
     * an empty one shows "No students found" and keeps the highlighted
     * index it had.
     */
    method RenderResults()
      modifies this
      ensures visible
      ensures results != [] ==> panel == [StudentList] && selectedIndex == -1
      ensures results == [] ==> panel == [NoResultsText] && selectedIndex == old(selectedIndex)
      ensures inputValue == old(inputValue) && results == old(results)
      ensures lastQuery == old(lastQuery) && pending == old(pending) && selections == old(selections)
    {
      if |results| == 0 {
        panel := [NoResultsText];
        visible := true;
        return;
      }
      panel := [StudentList];
      visible := true;
      selectedIndex := -1;
    }

    /** The search answer arrives: its students become the results, which are drawn. */
    method ResultsArrived(students: seq<StudentHit>)
      requires Valid()
      modifies this
      ensures Valid()
      ensures results == students && visible
      ensures students != [] ==> panel == [StudentList] && selectedIndex == -1
      ensures students == [] ==> panel == [NoResultsText] && selectedIndex == old(selectedIndex)
      ensures inputValue == old(inputValue) && lastQuery == old(lastQuery)
      ensures pending == old(pending) && selections == old(selections)
    {
      results := students;
      RenderResults();
    }

    /**
     * The search fails: `renderError` appends the error message to what the
     * container already holds and shows it; a list drawn before stays drawn.
     */
    method FetchFailed()
      modifies this
      ensures visible && panel == old(panel) + [ErrorText]
      ensures inputValue == old(inputValue) && selectedIndex == old(selectedIndex) && results == old(results)
      ensures lastQuery == old(lastQuery) && pending == old(pending) && selections == old(selections)
    {
      panel := panel + [ErrorText];
      visible := true;
    }

    /** `selectNext`: nothing on empty results, otherwise the next index, wrapping. */
    method SelectNext()
      requires Valid()
      modifies this
      ensures Valid()
      ensures results == [] ==> selectedIndex == old(selectedIndex)
      ensures results != [] ==> selectedIndex == NextIndex(old(selectedIndex), |results|)
      ensures results != [] ==> 0 <= selectedIndex < |results|
      ensures inputValue == old(inputValue) && visible == old(visible) && panel == old(panel) && results == old(results)
      ensures lastQuery == old(lastQuery) && pending == old(pending) && selections == old(selections)
    {
      if |results| == 0 {
        return;
      }
      selectedIndex := JsRemainder(selectedIndex + 1, |results|);
    }

    /** `selectPrevious`: nothing on empty results, otherwise the previous index, wrapping. */
    method SelectPrevious()
      requires Valid()
      modifies this
      ensures Valid()
      ensures results == [] ==> selectedIndex == old(selectedIndex)
      ensures results != [] ==> selectedIndex == PrevIndex(old(selectedIndex), |results|)
      ensures results != [] ==> 0 <= selectedIndex < |results|
      ensures inputValue == old(inputValue) && visible == old(visible) && panel == old(panel) && results == old(results)
      ensures lastQuery == old(lastQuery) && pending == old(pending) && selections == old(selections)
    {
      if |results| == 0 {
        return;
      }
      selectedIndex := JsRemainder(selectedIndex - 1 + |results|, |results|);
    }

    /**
     * `selectResult`: the box shows the student's name, the results are
     * hidden, and `onSelect`, when given, receives the student once.
     */
    method SelectResult(s: StudentHit)
      modifies this
      ensures inputValue == s.name && !visible && selectedIndex == -1
      ensures selections == old(selections) + (if hasOnSelect then [s] else [])
      ensures panel == old(panel) && results == old(results)
      ensures lastQuery == old(lastQuery) && pending == old(pending)
    {
      inputValue := s.name;
      HideResults();
      if hasOnSelect {
        selections := selections + [s];
      }
    }

    /**
     * `onKeyDown`: keys do nothing while the container is hidden. Arrows
     * move the highlight, Escape hides, Enter picks the highlighted
     * student when there is one; a highlight past the end of the results
     * makes Enter throw before anything changes.
     */
    method OnKeyDown(key: Key) returns (outcome: KeyOutcome)
      requires Valid()
      modifies this
      ensures Valid()
      ensures !old(visible) || key == OtherKey ==>
        outcome == Ignored && selectedIndex == old(selectedIndex) && visible == old(visible)
        && inputValue == old(inputValue) && selections == old(selections)
      ensures old(visible) && (key == ArrowDown || key == ArrowUp) ==>
        && outcome == Handled && visible && inputValue == old(inputValue) && selections == old(selections)
        && (results == [] ==> selectedIndex == old(selectedIndex))
      ensures old(visible) && key == ArrowDown && results != [] ==> selectedIndex == NextIndex(old(selectedIndex), |results|)
      ensures old(visible) && key == ArrowUp && results != [] ==> selectedIndex == PrevIndex(old(selectedIndex), |results|)
      ensures old(visible) && key == Escape ==>
        outcome == Handled && !visible && selectedIndex == -1 && inputValue == old(inputValue) && selections == old(selections)
      ensures old(visible) && key == Enter && old(selectedIndex) < 0 ==>
        && outcome == Handled && selectedIndex == old(selectedIndex) && visible
        && inputValue == old(inputValue) && selections == old(selections)
      ensures old(visible) && key == Enter && 0 <= old(selectedIndex) < |results| ==>
        && outcome == Handled && inputValue == results[old(selectedIndex)].name && !visible && selectedIndex == -1
        && selections == old(selections) + (if hasOnSelect then [results[old(selectedIndex)]] else [])
      ensures old(visible) && key == Enter && old(selectedIndex) >= |results| ==>
        outcome == Threw && selectedIndex == old(selectedIndex) && visible
        && inputValue == old(inputValue) && selections == old(selections)
      ensures panel == old(panel) && results == old(results) && lastQuery == old(lastQuery) && pending == old(pending)
    {
      if !visible {
        return Ignored;
      }
      match key
      case ArrowDown =>
        SelectNext();
        outcome := Handled;
      case ArrowUp =>
        SelectPrevious();
        outcome := Handled;
      case Enter =>
        if selectedIndex >= 0 {
          if selectedIndex < |results| {
            SelectResult(results[selectedIndex]);
            outcome := Handled;
          } else {
            outcome := Threw;
          }
        } else {
          outcome := Handled;
        }
      case Escape =>
        HideResults();
        outcome := Handled;
      case OtherKey =>
        outcome := Ignored;
    }

    /** Hovering item `index` of the drawn list highlights it. */
    method HoverItem(index: nat)
      requires visible && StudentList in panel && index < |results|
      modifies this
      ensures Valid() && selectedIndex == index
      ensures inputValue == old(inputValue) && visible && panel == old(panel) && results == old(results)
      ensures lastQuery == old(lastQuery) && pending == old(pending) && selections == old(selections)
    {
      selectedIndex := index;
    }

    /** Clicking item `index` of the drawn list selects that student. */
    method ClickItem(index: nat)
      requires visible && StudentList in panel && index < |results|
      modifies this
      ensures Valid()
      ensures inputValue == old(results)[index].name && !visible && selectedIndex == -1
      ensures selections == old(selections) + (if hasOnSelect then [old(results)[index]] else [])
      ensures results == old(results) && lastQuery == old(lastQuery) && pending == old(pending)
    {
      SelectResult(results[index]);
    }

    /**
     * A window resize restyles the container, which sets its display back
     * to none: the results are hidden, but unlike `hideResults` the
     * highlighted index is kept.
     */
    method Resize()
      modifies this
      ensures !visible
      ensures inputValue == old(inputValue) && panel == old(panel) && selectedIndex == old(selectedIndex)
      ensures results == old(results) && lastQuery == old(lastQuery) && pending == old(pending) && selections == old(selections)
    {
      visible := false;
    }

    /** A click outside the box and the container hides the results. */
    method ClickOutside()
      modifies this
      ensures Valid() && !visible && selectedIndex == -1
      ensures inputValue == old(inputValue) && panel == old(panel) && results == old(results)
      ensures lastQuery == old(lastQuery) && pending == old(pending) && selections == old(selections)
    {
      HideResults();
    }
  }

  /** Three students listed for the query "an", the third one hovered. */
  method ThirdOfThreeHovered() returns (box: StudentAutocomplete)
    ensures fresh(box) && box.Valid()
    ensures box.visible && box.selectedIndex == 2 && box.lastQuery == "an" && box.pending.None?
    ensures box.results == [StudentHit(1, "Ann", "s1"), StudentHit(2, "Dan", "s2"), StudentHit(3, "Jan", "s3")]
    ensures box.panel == [StudentList] && box.inputValue == "an"
  {
    box := new StudentAutocomplete("", true);
    TrimStops("an", IsJsSpace);
    assert JsTrim("an") == "an";
    box.OnInput("an");
    var query := box.TimerFires();
    box.ResultsArrived([StudentHit(1, "Ann", "s1"), StudentHit(2, "Dan", "s2"), StudentHit(3, "Jan", "s3")]);
    box.HoverItem(2);
  }

  /**
   * A failed search keeps the list drawn before it: three students are
   * listed, a click outside hides them, focusing the box fetches again,
   * the fetch fails, and the list, now shown above the error message, can
   * still be hovered and clicked.
   */
  method ListSurvivesFailedFetch() returns (picked: string)
    ensures picked == "Jan"
  {
    var box := ThirdOfThreeHovered();
    box.ClickOutside();
    var fetched := box.OnFocus();
    box.FetchFailed();
    assert box.panel == [StudentList, ErrorText];
    box.HoverItem(0);
    box.ClickItem(2);
    picked := box.inputValue;
  }

  /**
   * A highlight survives an empty search answer: three students are
   * listed, the third is hovered, a new query is typed, the answer is
   * empty, and Enter then reads past the end of the results and throws.
   */
  method StaleHighlightThrows() returns (outcome: KeyOutcome)
    ensures outcome == Threw
  {
    var box := ThirdOfThreeHovered();
    TrimStops("anx", IsJsSpace);
    assert JsTrim("anx") == "anx";
    box.OnInput("anx");
    var query := box.TimerFires();
    box.ResultsArrived([]);
    outcome := box.OnKeyDown(Enter);
  }
}
