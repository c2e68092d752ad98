/** The paginated menu book: N pages numbered 1..N, one of them current.
    Turning a page retags the outgoing and the incoming page element and then
    refreshes the arrow buttons and the page-indicator dots.

    The first half states the behaviour on values (State and the transition
    functions); the class Book below holds the same state the way the page
    script does, as a page counter and per-element flags changed in place. */
module MenuBook {
  import Swipe

  /** The three classes page turning toggles on a page element. */
  datatype PageClasses = PageClasses(active: bool, prev: bool, next: bool)

  /** An incoming page: `prev` and `next` removed, `active` added. */
  const Shown := PageClasses(true, false, false)

  /** An outgoing page: `active` removed, then `prev` added when turning
      forward and `next` added when turning back. */
  function Leave(c: PageClasses, forward: bool): PageClasses {
    if forward then c.(active := false, prev := true) else c.(active := false, next := true)
  }

  /** The current page number and the classes of pages 1..N (page p at index p - 1). */
  datatype State = State(current: int, pages: seq<PageClasses>)

  ghost predicate InRange(s: State) {
    1 <= s.current <= |s.pages|
  }

  /** Exactly one page carries `active`, and it is the current one. */
  ghost predicate OneActive(s: State) {
    forall i :: 0 <= i < |s.pages| ==> (s.pages[i].active <==> i == s.current - 1)
  }

  /** goToPage: ignored for a target outside 1..N or equal to the current
      page; otherwise the old page turns away in the direction of travel, the
      target becomes active, and no other page changes. */
  function GoTo(s: State, target: int): (r: State)
    requires InRange(s)
    ensures InRange(r) && |r.pages| == |s.pages|
    ensures target < 1 || target > |s.pages| || target == s.current ==> r == s
    ensures 1 <= target <= |s.pages| && target != s.current ==>
      && r.current == target
      && r.pages[target - 1] == Shown
      && !r.pages[s.current - 1].active
      && (target > s.current ==>
            r.pages[s.current - 1].prev && r.pages[s.current - 1].next == s.pages[s.current - 1].next)
      && (target < s.current ==>
            r.pages[s.current - 1].next && r.pages[s.current - 1].prev == s.pages[s.current - 1].prev)
      && forall i :: 0 <= i < |s.pages| && i != target - 1 && i != s.current - 1 ==> r.pages[i] == s.pages[i]
  {
    if target < 1 || target > |s.pages| || target == s.current then
      s
    else
      var old_ := s.current - 1;
      State(target, s.pages[old_ := Leave(s.pages[old_], target > s.current)][target - 1 := Shown])
  }

  /** nextPage: one page forward, nothing on the last page (no wrap-around). */
  function Forward(s: State): (r: State)
    requires InRange(s)
    ensures InRange(r) && |r.pages| == |s.pages|
    ensures s.current < |s.pages| ==> r.current == s.current + 1 && r == GoTo(s, s.current + 1)
    ensures s.current == |s.pages| ==> r == s
  {
    if s.current < |s.pages| then GoTo(s, s.current + 1) else s
  }

  /** previousPage: one page back, nothing on the first page (no wrap-around). */
  function Back(s: State): (r: State)
    requires InRange(s)
    ensures InRange(r) && |r.pages| == |s.pages|
    ensures s.current > 1 ==> r.current == s.current - 1 && r == GoTo(s, s.current - 1)
    ensures s.current == 1 ==> r == s
  {
    if s.current > 1 then GoTo(s, s.current - 1) else s
  }

  /** What updateNavigation shows: the disabled state of the two arrow buttons
      and, per indicator dot, whether it is highlighted. */
  datatype Controls = Controls(prevDisabled: bool, nextDisabled: bool, dots: seq<bool>)

  function Navigation(s: State, dotCount: nat): (r: Controls)
    requires InRange(s)
    ensures r.prevDisabled <==> s.current == 1
    ensures r.nextDisabled <==> s.current == |s.pages|
    ensures |r.dots| == dotCount
    ensures forall i :: 0 <= i < dotCount ==> (r.dots[i] <==> i + 1 == s.current)
  {
    Controls(s.current == 1, s.current == |s.pages|, seq(dotCount, i => i + 1 == s.current))
  }

  /** The inputs the menu book listens to. */
  datatype Event =
    | DotClick(index: nat)        // click on the dot at 0-based position index
    | PrevClick                   // click on the previous arrow
    | NextClick                   // click on the next arrow
    | KeyDown(key: string)        // a key pressed anywhere in the document
    | TouchEnd(dx: int, dy: int)  // a finished touch gesture on the book

  /** The listeners: which event turns to which page. */
  function Handle(s: State, e: Event): (r: State)
    requires InRange(s)
    ensures InRange(r) && |r.pages| == |s.pages|
    ensures e.DotClick? ==> r == GoTo(s, e.index + 1)
    ensures (e.PrevClick? || e == KeyDown("ArrowLeft")
      || (e.TouchEnd? && Swipe.MenuBookSwipe(e.dx, e.dy) == Swipe.Previous)) ==> r == Back(s)
    ensures (e.NextClick? || e == KeyDown("ArrowRight")
      || (e.TouchEnd? && Swipe.MenuBookSwipe(e.dx, e.dy) == Swipe.Next)) ==> r == Forward(s)
    ensures ((e.KeyDown? && e.key != "ArrowLeft" && e.key != "ArrowRight")
      || (e.TouchEnd? && Swipe.MenuBookSwipe(e.dx, e.dy) == Swipe.Ignore)) ==> r == s
  {
    match e
    case DotClick(i) => GoTo(s, i + 1)
    case PrevClick => Back(s)
    case NextClick => Forward(s)
    case KeyDown(k) =>
      if k == "ArrowLeft" then Back(s) else if k == "ArrowRight" then Forward(s) else s
    case TouchEnd(dx, dy) =>
      match Swipe.MenuBookSwipe(dx, dy)
      case Previous => Back(s)
      case Next => Forward(s)
      case Ignore => s
  }

  /** The state after a series of events, handled one at a time. */
  function Run(s: State, events: seq<Event>): (r: State)
    requires InRange(s)
    ensures InRange(r) && |r.pages| == |s.pages|
    decreases |events|
  {
    if events == [] then s else Run(Handle(s, events[0]), events[1..])
  }

  /** A page turn moves the single `active` tag from the old page to the new one. */
  lemma GoToKeepsOneActive(s: State, target: int)
    requires InRange(s) && OneActive(s)
    ensures OneActive(GoTo(s, target))
  {
  }

  lemma HandleKeepsOneActive(s: State, e: Event)
    requires InRange(s) && OneActive(s)
    ensures OneActive(Handle(s, e))
  {
    match e
    case DotClick(i) => GoToKeepsOneActive(s, i + 1);
    case PrevClick => GoToKeepsOneActive(s, s.current - 1);
    case NextClick => GoToKeepsOneActive(s, s.current + 1);
    case KeyDown(k) =>
      GoToKeepsOneActive(s, s.current - 1);
      GoToKeepsOneActive(s, s.current + 1);
    case TouchEnd(dx, dy) =>
      GoToKeepsOneActive(s, s.current - 1);
      GoToKeepsOneActive(s, s.current + 1);
  }

  /** Whatever the visitor does, exactly one page stays active and it is the
      current one, provided that held when the book was set up. */
  lemma {:induction false} RunKeepsOneActive(s: State, events: seq<Event>)
    requires InRange(s) && OneActive(s)
    ensures OneActive(Run(s, events))
    decreases |events|
  {
    if events != [] {
      HandleKeepsOneActive(s, events[0]);
      RunKeepsOneActive(Handle(s, events[0]), events[1..]);
    }
  }

  /** Pressing "next" k times from page c lands on page min(c + k, N):
      the book stops at the last page instead of wrapping round. */
  lemma {:induction false} NextClicksClamp(s: State, k: nat)
    requires InRange(s)
    ensures Run(s, seq(k, _ => NextClick)).current ==
            if s.current + k <= |s.pages| then s.current + k else |s.pages|
    decreases k
  {
    if k > 0 {
      var clicks := seq(k, _ => NextClick);
      assert clicks[0] == NextClick;
      assert clicks[1..] == seq(k - 1, _ => NextClick);
      NextClicksClamp(Handle(s, NextClick), k - 1);
    }
  }

  /** After "next" from a page k < N: the previous arrow is enabled and the
      next arrow is disabled exactly when k + 1 is the last page. */
  lemma ForwardControls(s: State, dotCount: nat)
    requires InRange(s) && s.current < |s.pages|
    ensures !Navigation(Forward(s), dotCount).prevDisabled
    ensures Navigation(Forward(s), dotCount).nextDisabled <==> s.current + 1 == |s.pages|
  {
  }

  /** At most one indicator dot is highlighted. */
  lemma AtMostOneDot(s: State, dotCount: nat, i: nat, j: nat)
    requires InRange(s) && i < dotCount && j < dotCount
    requires Navigation(s, dotCount).dots[i] && Navigation(s, dotCount).dots[j]
    ensures i == j
  {
  }

  /** The menu book as the page script keeps it: a page counter, the page
      elements' classes, the dots' `active` flags and the arrows' `disabled`
      flags, all updated in place. Every page element 1..N is assumed present. */
  class Book {
    const pages: array<PageClasses>
    const dots: array<bool>
    const hasPrevButton: bool
    const hasNextButton: bool
    var currentPage: int
    var prevDisabled: bool
    var nextDisabled: bool

    ghost predicate Valid()
      reads this
    {
      1 <= currentPage <= pages.Length
    }

    /** The book's state as a value. */
    function Model(): (s: State)
      reads this, pages
      ensures s.current == currentPage && s.pages == pages[..]
    {
      State(currentPage, pages[..])
    }

    /** The arrows and dots show what Navigation prescribes for the current
        page (an arrow button that is missing from the page shows nothing). */
    ghost predicate Synced()
      reads this, pages, dots
    {
      && Valid()
      && (hasPrevButton ==> prevDisabled == Navigation(Model(), dots.Length).prevDisabled)
      && (hasNextButton ==> nextDisabled == Navigation(Model(), dots.Length).nextDisabled)
      && dots[..] == Navigation(Model(), dots.Length).dots
    }

    /** initMenuBook with at least one page: page 1 is current and the
        controls are refreshed once. */
    constructor (initial: seq<PageClasses>, dotCount: nat, hasPrev: bool, hasNext: bool)
      requires |initial| > 0
      ensures Valid() && Synced()
      ensures Model() == State(1, initial)
      ensures fresh(pages) && fresh(dots) && dots.Length == dotCount
      ensures hasPrevButton == hasPrev && hasNextButton == hasNext
    {
      pages := new PageClasses[|initial|](i requires 0 <= i < |initial| => initial[i]);
      dots := new bool[dotCount];
      hasPrevButton, hasNextButton := hasPrev, hasNext;
      currentPage := 1;
      prevDisabled, nextDisabled := false, false;
      new;
      UpdateNavigation();
    }

    /** updateNavigation: set the arrows' disabled flags and highlight the
        dot of the current page, clearing every other dot. */
    method UpdateNavigation()
      requires Valid()
      modifies this`prevDisabled, this`nextDisabled, dots
      ensures Synced()
      ensures !hasPrevButton ==> prevDisabled == old(prevDisabled)
      ensures !hasNextButton ==> nextDisabled == old(nextDisabled)
    {
      if hasPrevButton {
        prevDisabled := currentPage == 1;
      }
      if hasNextButton {
        nextDisabled := currentPage == pages.Length;
      }
      for i := 0 to dots.Length
        modifies dots
        invariant forall k :: 0 <= k < i ==> (dots[k] <==> k + 1 == currentPage)
      {
        dots[i] := i + 1 == currentPage;
      }
    }

    /** goToPage: the guard, the two retagged page elements, the new counter
        and the refreshed controls; an ignored target changes nothing at all. */
    method GoToPage(target: int)
      requires Valid()
      modifies this`currentPage, this`prevDisabled, this`nextDisabled, pages, dots
      ensures Valid()
      ensures Model() == GoTo(old(Model()), target)
      ensures target < 1 || target > pages.Length || target == old(currentPage) ==>
        unchanged(this) && unchanged(pages) && unchanged(dots)
      ensures 1 <= target <= pages.Length && target != old(currentPage) ==> Synced()
    {
      if target < 1 || target > pages.Length || target == currentPage {
        return;
      }
      var forward := target > currentPage;
      pages[currentPage - 1] := Leave(pages[currentPage - 1], forward);
      pages[target - 1] := Shown;
      currentPage := target;
      UpdateNavigation();
    }

    method NextPage()
      requires Valid()
      modifies this`currentPage, this`prevDisabled, this`nextDisabled, pages, dots
      ensures Valid()
      ensures Model() == Forward(old(Model()))
      ensures old(currentPage) < pages.Length ==> Synced()
      ensures old(currentPage) == pages.Length ==> unchanged(this) && unchanged(pages) && unchanged(dots)
    {
      if currentPage < pages.Length {
        GoToPage(currentPage + 1);
      }
    }

    method PreviousPage()
      requires Valid()
      modifies this`currentPage, this`prevDisabled, this`nextDisabled, pages, dots
      ensures Valid()
      ensures Model() == Back(old(Model()))
      ensures old(currentPage) > 1 ==> Synced()
      ensures old(currentPage) == 1 ==> unchanged(this) && unchanged(pages) && unchanged(dots)
    {
      if currentPage > 1 {
        GoToPage(currentPage - 1);
      }
    }

    /** The event listeners: dot clicks, arrow clicks, arrow keys and swipes. */
    method Dispatch(e: Event)
      requires Valid()
      modifies this`currentPage, this`prevDisabled, this`nextDisabled, pages, dots
      ensures Valid()
      ensures Model() == Handle(old(Model()), e)
      ensures Model() != old(Model()) ==> Synced()
      ensures Model() == old(Model()) ==> unchanged(this) && unchanged(pages) && unchanged(dots)
      ensures old(Synced()) ==> Synced()
    {
      match e
      case DotClick(i) => GoToPage(i + 1);
      case PrevClick => PreviousPage();
      case NextClick => NextPage();
      case KeyDown(k) =>
        if k == "ArrowLeft" {
          PreviousPage();
        }
        if k == "ArrowRight" {
          NextPage();
        }
      case TouchEnd(dx, dy) =>
        var action := Swipe.MenuBookSwipe(dx, dy);
        if action == Swipe.Previous {
          PreviousPage();
        } else if action == Swipe.Next {
          NextPage();
        }
    }
  }

  /** initMenuBook: no book when the document has no page elements. */
  method InitMenuBook(initial: seq<PageClasses>, dotCount: nat, hasPrev: bool, hasNext: bool)
    returns (book: Book?)
    ensures book == null <==> |initial| == 0
    ensures book != null ==>
      && fresh(book) && fresh(book.pages) && fresh(book.dots)
      && book.Valid() && book.Synced() && book.Model() == State(1, initial)
      && book.dots.Length == dotCount && book.hasPrevButton == hasPrev && book.hasNextButton == hasNext
  {
    if |initial| == 0 {
      return null;
    }
    book := new Book(initial, dotCount, hasPrev, hasNext);
  }
}
