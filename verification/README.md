# Itinerary bot — a Dafny model

The bot is a LINE chat bot. It builds a travel itinerary ("旅行のしおり") one
message at a time and renders it as a PDF, with a Google Maps link and a QR
code for every stop. This project models the two parts of `app.py` that hold
logic, and proves properties of them.

- **Dialogue (`Conversation`).** `handle_message` keeps one session per user:
  a step (idle, awaiting date, place, memo, or the continue answer), the
  collected items, and scratch fields for date, place and memo.
  - Every inbound text is trimmed with `str.strip()`.
  - The exact start keyword `しおり作成` restarts the flow from any step.
  - At the continue question, a `はい` prefix asks for another entry.
  - An `いいえ` prefix hands the items to the renderer and resets the session.
  - `Advance` is one session's move. `Handle` applies it in the map of all
    sessions. `Run` feeds a user's texts one after another.
  - Replies are abstract tags. The outcome shows which item list, if any, was
    handed to the renderer.
- **Layout (`Layout`, `Itinerary`).** `generate_pdf` without the drawing calls:
  - the items are sorted by date, using Python's stable `sorted` and code-point
    order on `str`;
  - a cursor runs down the page in whole millimetres: 277 for the title, 262
    below it, a new page when the cursor is under 40, 7 per line, 30 between
    entries;
  - each entry becomes a block holding its page, its line baselines (the memo
    line only when the memo is non-empty), the lower edge of its QR image, and
    its map link.
  - `Render` is the pure description of the layout. `LayOut` is the loop as
    written, and it is proved to produce exactly `Render`'s document.
- **Text (`Text`).** Python's `str.strip()` (over the `str.isspace` characters),
  `str.startswith`, and `<=` on `str`.

Main results:
- a well-formedness invariant that every message preserves. From reachable
  sessions, the `KeyError` at step 3 never happens and the renderer never gets
  an empty list;
- an end-to-end dialogue lemma. The start keyword, then date, place and memo
  per entry, with "yes" between entries and "no" at the end, renders exactly
  the typed entries in the typed order and leaves the session fresh;
- the sort is a stable permutation, and it is the only sorted order with that
  stability;
- every header lies between 40 mm and the top margin;
- the document needs at least one page per six entries.

Two points follow the code exactly where a simpler reading of the bot would differ:
- the memo line, and its 7 mm, appear only when the memo is non-empty
  (app.py:145-147), rather than as a fixed height per entry;
- on "no", the items are rendered (app.py:96) and the reply sent (app.py:99)
  before the session is replaced (app.py:104). The order shows only when one
  of those calls raises: `Interrupted` gives the session a failed delivery
  leaves behind, and `RenderFailureRetries` shows that after a failed render
  the session still waits at step 4 with all its items, so "no" can be sent
  again.

A fault (the `KeyError` at step 3) aborts only its own webhook delivery: `Run`
records it, sends nothing for it, and handles the next text from the session
the fault left.

## Model

| member | source | states |
|---|---|---|
| Text.StripShape | app.py:40 | The trimmed text neither starts nor ends with whitespace. It sits inside the raw text, and everything cut from either side is whitespace. |
| Text.StripOfPadded | app.py:40 | Whitespace, a core that neither starts nor ends with whitespace, then whitespace, trims to exactly that core. Together with StripShape this pins down what trimming returns. |
| Text.StripIdempotent | app.py:40 | Trimming an already trimmed text changes nothing. |
| Itinerary.SortByDate | app.py:129 | The sorted items are in ascending date order and are a permutation of the input, with the same length. |
| Itinerary.SortByDateStable | app.py:129 | For every date, the entries carrying it appear in the sorted result in the same order as in the input. |
| Itinerary.SortByDateUnique | app.py:129 | Any sequence that is sorted by date and keeps each date's entries in input order equals the sort's result, so the ordering is fully determined. |
| Layout.MapsUrlRoundTrip | app.py:149 | The link starts with the Maps search prefix, and the query read back from it is the place text, unescaped. |
| Layout.MapsUrlInjective | app.py:149 | Different places give different links. |
| Layout.PlaceBlock | app.py:136-163 | A block starts a new page at the top exactly when the cursor is below 40 mm, and otherwise starts at the cursor. Its lines are 7 mm apart, the memo line is present exactly when the memo is non-empty, the QR's lower edge is 5 mm under the link line, and the link is built from the place. |
| Layout.PlaceShape | app.py:131-163 | The loop places one block per item, in item order. Each block follows the page-break rule from the cursor the previous block left. The last page and cursor are those after the final block. |
| Layout.HeadersAboveBreak | app.py:136-141 | Under the page-break rule, no entry header is drawn below 40 mm. |
| Layout.HeaderBelowTop | app.py:122-163 | From a start at or below the top margin, no header is drawn above 277 mm. |
| Layout.PageRange | app.py:136-138 | Block pages run from the start page to the last block's page. Each block adds at most one page. |
| Layout.Paginate | app.py:122-166 | Placing entries already in order gives one block per entry. The first block is on page 0 at 262 mm. Every header lies in [40, 277]. The page count is the last block's page plus one, at most the number of entries. With no entries there is just the title page. |
| Layout.Render | app.py:115-166 | The rendered blocks are the date-sorted items, one each, in order. No items give a single page. |
| Layout.RenderOrder | app.py:129-134 | Each item is drawn exactly once: a permutation, ascending by date, with same-date items in their input order. |
| Layout.RenderLinks | app.py:149-155 | Each block's link is the fixed prefix followed by that entry's raw place, and the place can be read back from it. |
| Layout.CursorDrop | app.py:141-163 | Per entry, the cursor drops by 7 + 7 + 30 mm, plus another 7 mm exactly when the memo is non-empty. The memo line is drawn exactly when the memo is non-empty. |
| Layout.BlocksOnPage | app.py:136-161 | Every QR image lies wholly on its page, between the bottom edge and the 297 mm top. |
| Layout.SamePageDrop | app.py:136-163 | On one page, each further header is at least 44 mm lower per intervening entry. |
| Layout.SevenBlocksSpanTwoPages | app.py:136-163 | A page holds at most six entries, so any seven consecutive blocks reach a later page. |
| Layout.PageCountLowerBound | app.py:131-165 | The document has at least one page per six entries. More than six entries always spill past the first page. |
| Layout.DrawEntry | app.py:136-163 | One loop iteration, written with a mutable cursor, draws exactly the block the page-break rule prescribes and leaves the page and cursor after it. |
| Layout.PlaceAll | app.py:122-163 | The loop as written, starting 15 mm below the title, yields exactly the blocks and last page of the recursive description. |
| Layout.LayOut | app.py:115-166 | Sorting and then running the loop produces exactly the document `Render` describes. |
| Conversation.Advance | app.py:47-109 | A move keeps a well-formed session well formed and never faults from one. Rendering happens only with the PdfReady reply, on the session's own items, and resets the session. From a well-formed session those items are non-empty. A move with no reply changes nothing. |
| Conversation.Handle | app.py:38-45 | After any message the sender has a session. When rendering happens, the renderer gets the sender's current items and the sender's session is fresh. |
| Conversation.HandleTouchesOnlySender | app.py:42-45 | A message adds only the sender's session, if the sender was unseen, and leaves every other user's session unchanged. |
| Conversation.HandleKeepsWellFormed | app.py:42-109 | From well-formed sessions, every message succeeds (no KeyError), keeps all sessions well formed, and never hands the renderer an empty list. |
| Conversation.IdleIgnoresOtherText | app.py:42-109 | An unseen user's first message creates a fresh idle session. At step 0, any trimmed text other than the start keyword gets no reply and changes nothing else. |
| Conversation.StartKeywordRestarts | app.py:48-52 | The exact start keyword, from any step, moves to step 1 with no items and leaves the scratch fields as they were. |
| Conversation.DateAndPlaceAdvance | app.py:55-66 | At steps 1 and 2 the text is stored as the date, then the place, and the step goes up by one. The items are unchanged. |
| Conversation.MemoCommitsEntry | app.py:69-83 | At step 3 the text is stored as the memo. Exactly one entry, made of the stored date, place and this memo, is appended after the earlier items, and the step becomes 4. |
| Conversation.MemoWithoutScratchFaults | app.py:69-76 | At step 3 with no stored date or place, the memo is stored and then the handler faults. Step and items stay as they were. |
| Conversation.ContinueYesOrNeither | app.py:86-109 | At step 4, a `はい` prefix returns to step 1 and keeps the items. A text with neither prefix leaves the session unchanged and repeats the yes/no question. |
| Conversation.ContinueNoRenders | app.py:95-105 | At step 4, an `いいえ` prefix hands the current items to the renderer and then replaces the session with a fresh one, scratch fields included. |
| Conversation.RunIsConverse | app.py:38-45 | A run of messages from one user, faulting ones included, is that user's own session evolving. Other users' sessions are untouched. |
| Conversation.RunRepliesPerText | app.py:38-109 | Every message of a run gets exactly one reply slot, including a message whose delivery faulted, so replies line up with texts. |
| Conversation.FaultThenRestart | app.py:69-76 | A memo that faults for want of a stored date or place does not end the dialogue. It gets no reply, and the start keyword sent next still restarts the flow at step 1 with no items. |
| Conversation.Interrupted | app.py:47-109 | The session a delivery leaves when a call out of it raises is still well formed, whenever the session it started from was. |
| Conversation.RenderFailureRetries | app.py:95-104 | If rendering or the reply on "no" raises, the reset at line 104 is never reached. The session is left unchanged at step 4 with every item, and sending "no" again hands the renderer the same items. |
| Conversation.RoundsFrom | app.py:55-105 | From step 1, complete entry rounds ended by "no" hand the renderer the earlier items followed by exactly the typed entries, once, and end with a fresh session. |
| Conversation.Dialogue | app.py:38-109 | A whole dialogue renders exactly the typed entries in typed order, once, with the expected reply sequence. The user's session ends fresh. |

## Left out

- Flask routing, `callback`, LINE signature checking and `reply_message` delivery (app.py:19-34). These are transport; replies are abstract tags, and the reply texts are not modelled.
- The download URL built from `request.url_root` (app.py:97). It depends on the request context; the `PdfReady` tag stands for that reply.
- QR encoding and PNG buffering (app.py:155-160). The QR is represented by the link it encodes (`Block.url`) and the position of its image.
- reportlab drawing, font registration and sizes, x coordinates, `showPage`/`save`, and writing to the fixed `static/itinerary.pdf` path (app.py:17, app.py:116-121, app.py:123-124, app.py:127, app.py:137, app.py:139, app.py:141-161, app.py:165). These are foreign calls and I/O; only the vertical cursor and the page index are kept.
- Point-unit floating point. Geometry is in integer millimetres. Every offset in the renderer is a whole multiple of `mm`, and the cursor is always 262 or 277 minus sums of 44 and 51. So it never lands exactly on the 40 mm threshold, and rounding cannot change a break decision.
- Concurrent access to the shared `user_state` dict and to the single PDF file. Messages are handled one at a time.
- Non-text message events never reach `handle_message`, so they are not modelled.
- Conversation.Dialogue: stated only for entries whose fields are already trimmed and differ from the start keyword. Any other field would be trimmed or restart the flow, so the general statement follows from the per-step lemmas instead.
- Conversation.Run: every outbound call (renderer, reply) is taken to succeed. A failed call is described for a single delivery by `Interrupted`, not threaded through a run, because which call fails is decided outside the program.
