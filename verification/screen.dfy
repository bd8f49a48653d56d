/**
 What `State::list_up` puts on the terminal: which entries of the listing
 are printed and on which row, and when the `lines a-b(n)` footer appears;
 and how `State::print` shortens a long name. Rows are 1-based terminal rows;
 the listing starts on row 3 (`STARTING_POINT`). The arithmetic is on `u16`
 and `usize`, whose overflow and underflow panic in a debug build.
 */
module Screen {
  import opened Base

  const STARTING_POINT: nat := 3

  /** A printed line: the entry at `index` on terminal row `row`, or the footer. */
  datatype Line =
    | Entry(index: nat, row: nat)
    | Footer(first: nat, last: nat, total: nat, row: nat)

  /** The entries `lo..hi` printed on consecutive rows starting at `top`. */
  function Entries(lo: nat, hi: nat, top: nat): (r: seq<Line>)
    requires lo <= hi
    ensures |r| == hi - lo
    ensures forall k :: 0 <= k < |r| ==> r[k] == Entry(lo + k, top + k)
    decreases hi - lo
  {
    if lo == hi then [] else Entries(lo, hi - 1, top) + [Entry(hi - 1, top + hi - 1 - lo)]
  }

  function Min(a: nat, b: nat): nat {
    if a <= b then a else b
  }

  /**
   The screen `list_up` draws for a listing of `len` entries on a terminal of
   `row` rows scrolled by `skip`, when no integer leaves its range. A listing
   of at least `row - 3` entries is paged: from entry `skip`, at most
   `row - 3` entries, then a footer on the last row if more follow. A shorter
   listing is printed whole.
   */
  function Window(len: nat, row: nat, skip: nat): seq<Line>
    requires row > STARTING_POINT
  {
    var cap := row - STARTING_POINT;
    if len >= cap then
      var hi := Min(len, skip + cap);
      Entries(Min(skip, len), hi, STARTING_POINT)
        + (if len > skip + cap then [Footer(skip + 1, skip + cap, len, row)] else [])
    else
      Entries(0, len, STARTING_POINT)
  }

  /**
   `list_up`, step by step with the `u16` arithmetic of the source: `row - 3`
   and the `usize` subtraction after it underflow for rows below 4, and
   `i as u16` wraps for entries beyond 65535. On any listing short enough that
   nothing wraps it draws `Window`.
   */
  method ListUp(len: nat, row: nat, skip: nat) returns (r: Result<seq<Line>>)
    requires row <= U16_MAX && skip <= U16_MAX
    ensures row < STARTING_POINT ==> r == Err(Panic(U16Underflow))
    ensures row == STARTING_POINT ==> r == Err(Panic(UsizeUnderflow))
    ensures row > STARTING_POINT && len + STARTING_POINT <= U16_MAX + 1 ==> r == Ok(Window(len, row, skip))
  {
    if row < STARTING_POINT {
      return Err(Panic(U16Underflow));
    }
    var cap := row - STARTING_POINT;
    if cap == 0 {
      return Err(Panic(UsizeUnderflow));
    }
    var lines: seq<Line> := [];
    if len > cap - 1 {
      var rowCount := 0;
      var i := 0;
      while i < len
        invariant i <= len
        invariant rowCount == (if i <= skip then 0 else i - skip) && rowCount <= cap
        invariant lines == Entries(Min(skip, i), i, STARTING_POINT)
      {
        if i < skip {
          i := i + 1;
          continue;
        }
        var iu := i % (U16_MAX + 1);
        if iu + STARTING_POINT > U16_MAX {
          return Err(Panic(U16Overflow));
        }
        if iu + STARTING_POINT < skip {
          return Err(Panic(U16Underflow));
        }
        var y := iu + STARTING_POINT - skip;
        if rowCount == cap {
          if skip + 1 > U16_MAX || cap + skip > U16_MAX {
            return Err(Panic(U16Overflow));
          }
          return Ok(lines + [Footer(skip + 1, cap + skip, len, y)]);
        }
        lines := lines + [Entry(i, y)];
        rowCount := rowCount + 1;
        i := i + 1;
      }
      assert len <= skip + cap;
      assert lines == Window(len, row, skip);
    } else {
      r := ListAll(len);
      assert r == Ok(Window(len, row, skip));
      return;
    }
    return Ok(lines);
  }

  /**
   The unpaged loop: entry `i` on row `(i as u16) + 3`, which overflows at the
   entry numbered 65533.
   */
  method ListAll(len: nat) returns (r: Result<seq<Line>>)
    ensures len + STARTING_POINT <= U16_MAX + 1 ==> r == Ok(Entries(0, len, STARTING_POINT))
    ensures len + STARTING_POINT > U16_MAX + 1 ==> r == Err(Panic(U16Overflow))
  {
    var lines := [];
    var i := 0;
    while i < len
      invariant i <= len
      invariant i + STARTING_POINT <= U16_MAX + 1
      invariant lines == Entries(0, i, STARTING_POINT)
    {
      var iu := i % (U16_MAX + 1);
      if iu + STARTING_POINT > U16_MAX {
        return Err(Panic(U16Overflow));
      }
      lines := lines + [Entry(i, iu + STARTING_POINT)];
      i := i + 1;
    }
    return Ok(lines);
  }

  // ---------------------------------------------------------------------------
  // What the window shows
  // ---------------------------------------------------------------------------

  /** Some line of `w` prints the entry at `i`. */
  predicate Shows(w: seq<Line>, i: nat) {
    exists k :: 0 <= k < |w| && w[k].Entry? && w[k].index == i
  }

  /**
   A paged listing shows exactly the entries from `skip` up to `skip + row - 3`
   that exist, entry `i` on row `i + 3 - skip`: all between the header and
   the last row.
   */
  lemma WindowPagedEntries(len: nat, row: nat, skip: nat)
    requires row > STARTING_POINT && len >= row - STARTING_POINT
    ensures var w := Window(len, row, skip);
      forall k :: 0 <= k < |w| && w[k].Entry? ==>
        && skip <= w[k].index < len && w[k].index < skip + row - STARTING_POINT
        && w[k].row == w[k].index + STARTING_POINT - skip
        && STARTING_POINT <= w[k].row < row
    ensures forall i: nat :: Shows(Window(len, row, skip), i) <==> skip <= i < len && i < skip + row - STARTING_POINT
  {
    var w := Window(len, row, skip);
    var cap := row - STARTING_POINT;
    var e := Entries(Min(skip, len), Min(len, skip + cap), STARTING_POINT);
    assert forall k :: 0 <= k < |e| ==> w[k] == e[k];
    forall i | skip <= i < len && i < skip + cap ensures Shows(w, i) {
      assert w[i - skip] == Entry(i, i + STARTING_POINT - skip);
    }
  }

  /** A short listing shows every entry, entry `i` on row `i + 3`, and no footer. */
  lemma WindowWholeEntries(len: nat, row: nat, skip: nat)
    requires row > STARTING_POINT && len < row - STARTING_POINT
    ensures |Window(len, row, skip)| == len
    ensures forall i :: 0 <= i < len ==> Window(len, row, skip)[i] == Entry(i, i + STARTING_POINT)
    ensures forall i :: 0 <= i < len ==> Window(len, row, skip)[i].row < row
  {
  }

  /**
   The footer appears exactly when entries follow the page, on the
   terminal's last row, numbering the page's entries from 1.
   */
  lemma WindowFooter(len: nat, row: nat, skip: nat)
    requires row > STARTING_POINT
    ensures var w := Window(len, row, skip);
      (exists k :: 0 <= k < |w| && w[k].Footer?) <==> len >= row - STARTING_POINT && len > skip + row - STARTING_POINT
    ensures var w := Window(len, row, skip);
      forall k :: 0 <= k < |w| && w[k].Footer? ==>
        k == |w| - 1 && w[k] == Footer(skip + 1, skip + row - STARTING_POINT, len, row)
  {
    var cap := row - STARTING_POINT;
    var w := Window(len, row, skip);
    if len >= cap {
      var e := Entries(Min(skip, len), Min(len, skip + cap), STARTING_POINT);
      assert forall k :: 0 <= k < |e| ==> w[k] == e[k];
      if len > skip + cap {
        assert w[|w| - 1].Footer?;
      }
    }
  }

  /**
   The footer numbers the page from 1: its first number is the position of
   the first entry shown, its last that of the last entry shown, so it
   spans exactly the entries on the page.
   */
  lemma WindowFooterCountsPage(len: nat, row: nat, skip: nat)
    requires row > STARTING_POINT
    requires var w := Window(len, row, skip); |w| > 0 && w[|w| - 1].Footer?
    ensures var w := Window(len, row, skip);
      var f := w[|w| - 1];
      && |w| >= 2 && w[0].Entry? && w[|w| - 2].Entry?
      && f.first == w[0].index + 1 && f.last == w[|w| - 2].index + 1
      && f.last - f.first + 1 == |w| - 1
  {
    var cap := row - STARTING_POINT;
    WindowFooter(len, row, skip);
    var e := Entries(Min(skip, len), Min(len, skip + cap), STARTING_POINT);
    assert Window(len, row, skip) == e + [Footer(skip + 1, skip + cap, len, row)];
  }

  /** A worked page: 25 entries on 10 rows scrolled by 5 show entries 5 to 11 and "lines 6-12(25)". */
  lemma WindowExample()
    ensures Window(25, 10, 5) == Entries(5, 12, 3) + [Footer(6, 12, 25, 10)]
    ensures Entries(5, 12, 3)[0] == Entry(5, 3) && Entries(5, 12, 3)[6] == Entry(11, 9)
  {
  }

  // ---------------------------------------------------------------------------
  // Name truncation in `print`
  // ---------------------------------------------------------------------------

  /**
   A name longer than `maxLen` characters is cut to `maxLen - 3` characters
   and marked with "..", so it takes `maxLen - 1` columns; the subtraction
   underflows, and panics, when `maxLen` is below 3.
   */
  function TruncateName(name: string, maxLen: nat): (r: Result<string>)
    ensures r.Err? <==> |name| > maxLen && maxLen < 3
    ensures r.Err? ==> r.error == Panic(UsizeUnderflow)
    ensures r.Ok? ==> |r.value| <= maxLen
    ensures r.Ok? && |name| <= maxLen ==> r.value == name
    ensures r.Ok? && |name| > maxLen ==>
      |r.value| == maxLen - 1 && r.value[..maxLen - 3] == name[..maxLen - 3] && r.value[maxLen - 3..] == ".."
  {
    if |name| <= maxLen then Ok(name)
    else if maxLen < 3 then Err(Panic(UsizeUnderflow))
    else Ok(name[..maxLen - 3] + "..")
  }
}
