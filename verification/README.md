# Marlin LCD menu navigation, modelled in Dafny

This project models the menu layer of the Marlin printer firmware's LCD
panel. It covers `MenuBase` and `MenuPage` in `Marlin/menu_base.h`. It also
covers the part of the `Screen` character buffer (`Marlin/Screen.h`) that
the menu code uses.

- `c_int.dfy` (module `CInt`): the C integer behaviour the menu relies on.
  This is `int8_t` and `short` ranges, and C's `/` and `%`, which truncate
  toward zero (`Quot`, `Rem`). Dafny's own operators are Euclidean.
- `screen.dfy` (module `Screens`): a `Screen` is a row-major `seq<char>`
  buffer of `rows * cols` cells plus a cursor offset. The raw `char*` cursor
  becomes an integer offset, and like the pointer it can be set to anything.
  The module covers `getCursor`/`setCursor(char*)` (save and restore),
  `setCursor(col, row)`, `print(char)` and `print(char*)`.
- `menu_page.dfy` (module `MenuPages`): the `int8_t` fields of a page
  (`line`, `items`, `xshift`, `firstline`) and its `Screen`. It models the
  selection-marker position and `emptyline()`/`fillline()`. The position is
  column `(line / (4 - firstline)) * xshift` and row
  `firstline + line % (4 - firstline)`, using C division.
- `menu_base.dfy` (module `MenuBases`): the registry of `MAXPAGES = 10`
  page slots, with `curPage` and `maxPage`. It models `pageUp`, `pageDown`,
  `lineUp`, `lineDown` and `update`. Pages are known only by identity
  (`PageRef = Null | Page(id)`). Each operation returns the new registry and
  the virtual calls it made on pages (`activate`, `lineUp`, `lineDown`,
  `update`), in order.

Every operation is a pure function over an immutable record. Here is what
the code demands of its callers:

- A write through the cursor must land inside the buffer. The source writes
  through a raw pointer.
- `emptyline`/`fillline` divide by `4 - firstline` only when `items > 0`. So
  only then must `firstline` differ from 4, and the marker cell must lie in
  the buffer.
- `update()` has no null check, so the current slot must hold a page.
- `pageDown()` on an empty registry at index 0 would read `pages[-1]`. It
  requires `curPage > 0 || maxPage > 0`.
- The registry invariant `Wf` says three things. The array has its 10 slots.
  `0 <= maxPage <= 10`. `0 <= curPage < 10`. These ranges keep the `short`
  arithmetic far from overflow.

Behaviour of the code that the model keeps:

- The guard is `items > 0`, so a negative `items` also draws nothing.
- `setCursor(char*)` does not validate its argument, so the cursor is not
  always in range.
- `emptyline`/`fillline` call `print(char*)` with a one-character string,
  not `print(char)`.
- `firstline > 4` does not divide by zero. It gives a negative divisor,
  which C accepts.

## Model

| member | source | states |
|---|---|---|
| CInt.Quot | Marlin/menu_base.h:24 | C `/` truncates toward zero: magnitude is \|a\|/\|b\|, a non-zero quotient is negative exactly when the operand signs differ |
| CInt.Rem | Marlin/menu_base.h:24 | C `%`: `(a/b)*b + a%b == a`, \|a%b\| < \|b\|, and the remainder has the sign of the dividend |
| CInt.TruncationAgreesWhenNonNegative | Marlin/menu_base.h:32 | for a non-negative line and positive divisor the C operators equal the Euclidean ones |
| CInt.QuotRemDetermine | Marlin/menu_base.h:32 | equal C quotient and remainder imply equal dividends |
| Screens.GetCursor | Marlin/Screen.h:34 | reading the cursor changes nothing: restoring the value it returns gives back the identical screen, buffer and cursor included |
| Screens.SetCursor | Marlin/Screen.h:35 | restoring a raw cursor changes only the cursor; buffer and dimensions stay, buffer size is kept |
| Screens.CursorSaveRestore | Marlin/Screen.h:34-35 | `setCursor(getCursor())` is the identity and `getCursor()` after `setCursor(p)` returns `p`, buffer untouched |
| Screens.SetCursorAt | Marlin/Screen.h:36 | addressing by column and row leaves buffer and dimensions unchanged |
| Screens.CellAddressRoundTrip | Marlin/Screen.h:36 | an in-grid (col,row) addresses a cell inside the `rows*cols` buffer, and dividing that offset by `cols` gives back row and column |
| Screens.PrintChar | Marlin/Screen.h:39 | writes the character at the cursor, every other cell unchanged, cursor advanced by one, buffer keeps its `rows*cols` size |
| Screens.PrintText | Marlin/Screen.h:41 | the text appears at the cursor, the cells before and after are unchanged, and the cursor advances by the text's length |
| Screens.PrintOneCharText | Marlin/menu_base.h:25 | printing the string `" "` is printing the character `' '` |
| Screens.DrawBetweenSaveRestore | Marlin/Screen.h:34-36 | save cursor, draw at (col,row), restore: the cursor is back and only the drawn cells changed |
| MenuPages.DrawAtLine | Marlin/menu_base.h:20-35 | with `items <= 0` the page is unchanged; otherwise exactly the marker cell takes the character and the cursor ends after it |
| MenuPages.EmptyLine | Marlin/menu_base.h:20-27 | no-op when `items <= 0`; otherwise a blank at the marker cell, every other cell and every page field unchanged |
| MenuPages.FillLine | Marlin/menu_base.h:28-35 | no-op when `items <= 0`; otherwise `~` at the marker cell, every other cell and every page field unchanged |
| MenuPages.MarkerInUsableRows | Marlin/menu_base.h:24 | for `line >= 0` and `firstline < 4` the marker row is within `[firstline, 4)` and the column is `(line div rows-per-column) * xshift` |
| MenuPages.MarkerLayoutInjective | Marlin/menu_base.h:32 | with `xshift != 0` distinct lines never share a marker (column, row) pair |
| MenuPages.MarkerOffsetInjective | Marlin/menu_base.h:32 | with `xshift != 0` and both marker columns inside `[0, cols)`, two lines whose markers land on the same buffer cell are the same line |
| MenuPages.ZeroShiftOverlaps | Marlin/menu_base.h:32 | with `xshift == 0` line `l` and line `l + (4 - firstline)` share a marker cell |
| MenuPages.NegativeLineAboveFirstLine | Marlin/menu_base.h:24 | a small negative line puts the marker in column 0 above `firstline`, because C's `%` is negative there |
| MenuPages.EmptyAfterFill | Marlin/menu_base.h:20-35 | `emptyline` after `fillline` gives the same page as `emptyline` alone |
| MenuPages.FillLineIdempotent | Marlin/menu_base.h:28-35 | `fillline` twice equals `fillline` once |
| MenuBases.PageUp | Marlin/menu_base.h:55-67 | the index becomes `(curPage+1) mod maxPage` and stays in range; an out-of-range index goes to 0; `activate()` only on the new current page, once, if non-null; slots and count unchanged |
| MenuBases.PageDown | Marlin/menu_base.h:69-80 | the index becomes `(curPage-1) mod maxPage` and stays in range; `activate()` only on the new current page, once, if non-null; slots and count unchanged |
| MenuBases.LineUp | Marlin/menu_base.h:82-86 | registry unchanged; one `lineUp()` call on the current page if non-null, none otherwise |
| MenuBases.LineDown | Marlin/menu_base.h:88-92 | registry unchanged; one `lineDown()` call on the current page if non-null, none otherwise |
| MenuBases.Update | Marlin/menu_base.h:94-97 | requires a non-null current page (no guard in the source); registry unchanged; exactly one `update()` on it |
| MenuBases.PageUps | Marlin/menu_base.h:59-63 | `k` page-ups move an in-range index to `(curPage + k) mod maxPage` with at most `k` page calls |
| MenuBases.PageUpCycle | Marlin/menu_base.h:59-63 | `maxPage` consecutive page-ups give back the starting registry |
| MenuBases.PageUpsActivateInOrder | Marlin/menu_base.h:59-65 | with every registered slot non-null, `k` page-ups make exactly `k` calls; the `j`-th activates page `(curPage + j + 1) mod maxPage` |
| MenuBases.PageUpDownInverse | Marlin/menu_base.h:55-80 | for an in-range index, `pageDown` undoes `pageUp` and `pageUp` undoes `pageDown` |

## Left out

The two headers modelled here declare several `Screen` and `MenuPage`
members whose bodies live in separate source files. Those files are not
part of this model, so nothing below invents behaviour for them.

- `Screen::display()` and `createChar` are left out. They are the hardware
  transport over the 4-bit parallel pins, and so are the pin `#define`s.
- `printFloat31`/`printFloat41` are left out. They are floating-point
  formatting whose bodies are defined outside the two headers.
- `print(int)`, `print(char*, int)`, `printRow`, `clear`, `begin`,
  `setCursorRow` and the `Screen` constructors are left out. Their bodies are
  defined outside the two headers, and the menu code does not call them.
- Screens.SetCursorAt has no range check or clipping. It computes
  `row * cols + col`, because the body of `setCursor(int, int)` is defined
  outside the two headers and no clipping rule is visible.
- Screens.PrintText requires the whole write to lie inside the buffer. It
  does not clip, because the bodies of `print` are defined outside the two
  headers and a write through an out-of-range `char*` is undefined in C.
- Screens.PrintChar has the same requirement for the same reason.
- `MenuPage::lineUp`/`lineDown` are left out because their bodies are
  defined outside the two headers. `MenuBase` only records that it forwards
  to them.
- `MenuBase::addMenuPage` is left out because its body is defined outside
  the two headers. No capacity check is modelled, and any `Wf` registry may
  serve as a starting state.
- The `MenuBase`/`MenuPage` constructors and destructor are left out for the
  same reason, so the initial values of `curPage` and `maxPage` are unknown.
- The concrete pages' `activate()`/`update()` behaviour is left out. It is
  represented only by the logged `PageCall`s on a page identity.
- The `int8_t`/`short` fields are typed by their ranges. Wrap-around is not
  modelled, because under `Wf` and the page requirements no operation leaves
  those ranges.
- The layout's four rows are a constant. They are not tied to the screen's
  configured `LCD_ROWS`, as in the source. `Configuration.h` is not part of
  this model.
