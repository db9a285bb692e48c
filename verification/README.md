# Snake game and score service, modelled in Dafny

This project models the game logic of a browser Snake game and the
checking logic of its score service.

The game (frontend/src/App.jsx) runs on a 20×20 board. The snake starts as
the single cell (10,10), heading up (0,−1), with food at (15,15). Each tick
moves the head one cell. Leaving the board or entering any current segment
(the tail included) ends the game, and the best score is kept. Entering the
food cell grows the snake by one, adds 10 points and shortens the tick
interval by 2 ms, down to 50 ms. Any other move drops the tail. New food is
drawn at random, with draws repeated until the cell is off the snake.

A player turns the snake in three ways:
- arrow keys, which accept only a perpendicular turn;
- on-screen buttons, which refuse only an exact reversal;
- swipes, read by the axis with the larger displacement, which must exceed
  30, and then subject to the arrow-key rule.

All three are ignored while the game is not playing.

The score service (backend/server.js) checks a submitted score in a fixed
order. It refuses a second submission from the same email or IP within
five minutes, and stores the record with the name trimmed and the email
trimmed and lower-cased. It also pages the score listing.

Modules:
- `Optional`: the `Option` type.
- `SnakeRules`: the pure rules. These are the constants, the collision
  test, food placement (`GenerateFood`, a loop specified by `FirstFree`),
  the three turn rules and the speed schedule.
- `SnakeSession`: the class `Game`. Its fields are the component's state
  hooks: `snake`, `direction`, `food`, `score`, `gameSpeed`, `isPlaying`,
  `gameOver` and `highScore`. Its methods are the game loop, the input
  handlers and the session buttons. Its invariant `Valid()` holds after
  every method:
  - the snake is on the board and has no two equal segments;
  - the direction is one of the four unit vectors;
  - the food is on the board;
  - `score` is 10 times the foods eaten (the length less one);
  - `gameSpeed` is the schedule's value after that many foods.
- `ScoreApi`: the score service as functions over a sequence of stored
  records. Request values are JSON values. `!v`, `typeof` and `.length`
  follow JavaScript for them; an object's length is its numeric `length`
  key, if it has one.

The model keeps these behaviours of the code as they are:
- A turn is applied to `direction` as soon as the input arrives, and is
  checked against the current direction. It is not buffered until the next
  tick.
- The state is the two flags `isPlaying` and `gameOver`, not a four-valued
  status. A tick while not playing or after game over does nothing; it is
  not an error.
- New food is drawn against the snake as it was before the move. So the
  food can land on the cell the head has just entered
  (`SnakeRules.FoodCanLandOnNewHead`). Food is not kept off the snake.
- The space bar only pauses. The keyboard handler returns early when the
  game is not playing, so space cannot resume it.
- A touch that started at coordinate 0 is ignored, because `!startX` is
  true for 0.
- The submission throttle matches on email or IP, not on email alone. The
  query casts the email through the schema's `trim` and `lowercase`
  setters, so it matches the stored form, and padding the address does not
  get past it (`ScoreApi.PaddedEmailIsThrottled`).
- The listing caps the page size at 100 but computes the skip from the
  uncapped limit. With a limit above 100, some ranks are never listed
  (`ScoreApi.OversizedLimitSkipsRanks`).

## Model

| member | source | states |
|---|---|---|
| `SnakeRules.Occupies` | frontend/src/App.jsx:43 | the `some` scan over the segments is true exactly when the cell is a segment of the snake |
| `SnakeRules.CheckCollision` | frontend/src/App.jsx:37-44 | a collision is exactly a head off the 20×20 board or on any current segment, the tail included |
| `SnakeRules.GrowKeepsShape` | frontend/src/App.jsx:57-72 | prepending a non-colliding head to a snake that is on the board and free of overlaps keeps it so |
| `SnakeRules.SlideKeepsShape` | frontend/src/App.jsx:57-77 | prepending a non-colliding head and dropping the last segment keeps the snake on the board and free of overlaps |
| `SnakeRules.Cell` | frontend/src/App.jsx:28-31 | flooring two random numbers in [0,1) times 20 always gives a cell on the board |
| `SnakeRules.FirstFree` | frontend/src/App.jsx:25-34 | the sampler's choice is a drawn cell on the board and off the snake, and every earlier draw landed on the snake; no choice is made exactly when every draw lands on the snake |
| `SnakeRules.GenerateFood` | frontend/src/App.jsx:25-34 | the do-while loop returns the first drawn cell not on the snake, as `FirstFree` specifies |
| `SnakeRules.FullBoardNeverPlacesFood` | frontend/src/App.jsx:27-32 | when the snake covers every cell, no draw is ever accepted, so the loop cannot return |
| `SnakeRules.EatingTickHasFreeDraw` | frontend/src/App.jsx:66-71 | on an eating tick the food cell is off the pre-move snake, so a draw pointing at it is accepted: the free draw an eating tick needs always exists |
| `SnakeRules.FoodCanLandOnNewHead` | frontend/src/App.jsx:66-71 | food drawn against the pre-move snake can be placed on the new head's cell |
| `SnakeRules.KeyTurn` | frontend/src/App.jsx:97-113 | an arrow key changes a unit direction exactly when the requested direction is neither the current one nor its reverse; otherwise the direction is kept |
| `SnakeRules.ButtonTurn` | frontend/src/App.jsx:126-140 | a button sets the requested direction exactly when it is not the reverse of the current unit direction |
| `SnakeRules.SwipeGesture` | frontend/src/App.jsx:157-180 | a swipe is horizontal only when abs(dx) > abs(dy) (ties are vertical), needs more than 30 along that axis, and its sign gives the direction |
| `SnakeRules.SwipeTurn` | frontend/src/App.jsx:157-180 | the swipe handler equals reading the gesture and then applying the arrow-key rule; no gesture means no change |
| `SnakeRules.KeyTurnStricterThanButtons` | frontend/src/App.jsx:97-140 | every turn the keyboard takes, the buttons take too; both refuse a reversal, and repeating the direction changes nothing |
| `SnakeRules.SpeedUp` | frontend/src/App.jsx:72 | one food lowers the interval by 2 while above 52 and never below 50 |
| `SnakeRules.SpeedAfterClosedForm` | frontend/src/App.jsx:18-72 | after n foods from 150 the interval is max(50, 150 − 2n) |
| `SnakeRules.SpeedSchedule` | frontend/src/App.jsx:72 | the interval stays within [50,150], never rises with another food, and is 50 exactly from the 50th food on |
| `SnakeSession.Game.constructor` | frontend/src/App.jsx:12-19 | a new game holds the initial snake, direction, food, score 0, speed 150, not playing, not over, best score 0 |
| `SnakeSession.Game.Tick` | frontend/src/App.jsx:47-79 | does nothing unless playing and not over. On a collision it sets game over, stops play, raises the best score to the score and keeps the snake. On food it prepends the head, adds 10, speeds up and places the food `FirstFree` gives for the pre-move snake. Otherwise it prepends the head and drops the tail. Nothing else changes, and the invariant holds |
| `SnakeSession.Game.KeyPress` | frontend/src/App.jsx:94-118 | ignored unless playing; arrows apply `KeyTurn`, space pauses, other keys do nothing |
| `SnakeSession.Game.ChangeDirection` | frontend/src/App.jsx:126-140 | ignored unless playing; otherwise the direction becomes `ButtonTurn` of the old one |
| `SnakeSession.Game.TouchEnd` | frontend/src/App.jsx:151-181 | ignored when a start coordinate is missing or 0, or when not playing; otherwise the direction becomes `SwipeTurn` of the displacement |
| `SnakeSession.Game.Toggle` | frontend/src/App.jsx:195-197 | flips whether the game is playing and changes nothing else |
| `SnakeSession.Game.Reset` | frontend/src/App.jsx:199-207 | restores every field to its initial value except the best score, which is kept |
| `SnakeSession.Game.Start` | frontend/src/App.jsx:209-214 | resets first only when the game is over, then sets playing |
| `ScoreApi.Validate` | backend/server.js:151-177 | answers 400 for the first failing check, in order: missing name, email or score; score not a number in [0, 999999]; name length over 50; email length over 100. Lengths are taken before trimming, from a string, an array or an object's numeric `length` key |
| `ScoreApi.Trim` | backend/server.js:197-198 | the trimmed string is a slice of the input, all that is cut away is white space, and it neither starts nor ends with white space |
| `ScoreApi.TrimIdempotent` | backend/server.js:197-198 | trimming twice is trimming once |
| `ScoreApi.Lower` | backend/server.js:182 | lower-casing keeps the length and maps each character on its own |
| `ScoreApi.TrimLowerCommute` | backend/server.js:45-50 | trimming and lower-casing give the same result in either order |
| `ScoreApi.LowerIdempotent` | backend/server.js:198 | lower-casing twice is lower-casing once and leaves no capital letters |
| `ScoreApi.ThrottleKey` | backend/server.js:180-186 | the email the throttle filters on, lower-cased by the handler and cast through the schema's trim and lowercase setters, is the trimmed, lower-cased address: the form in which emails are stored |
| `ScoreApi.FindRecent` | backend/server.js:180-186 | the query finds a stored record exactly when one has the same lower-cased email or the same IP and is at most 5 minutes old |
| `ScoreApi.HighestScore` | backend/server.js:206-208 | the highest stored score is one of the stored scores and no stored score exceeds it; it is absent only for an empty collection |
| `ScoreApi.NewRecord` | backend/server.js:196-201 | the stored record has the trimmed name and trimmed, lower-cased email, no longer than the input, with the score, IP and time of the request |
| `ScoreApi.HighestAfterSave` | backend/server.js:206-216 | after a save the highest score exists, and it equals the new score exactly when no earlier score exceeds it |
| `ScoreApi.Save` | backend/server.js:196-217 | saving appends exactly the new record. The 201 answer carries the trimmed name and the score, and says new high score exactly when no earlier score exceeds it |
| `ScoreApi.Submit` | backend/server.js:146-241 | a failed check answers 400 with its reason. A recent record for the throttle email or the IP answers 429. A non-string email, or an unthrottled non-string name, answers 500. A checked, unthrottled submission with string fields is saved with 201. Only a 201 changes the collection, and it does so by `Save` |
| `ScoreApi.StoredWithinSchema` | backend/server.js:165-177 | a stored record always has a name of at most 50 and an email of at most 100 characters and a score in [0, 999999] |
| `ScoreApi.PaddedEmailIsThrottled` | backend/server.js:180-193 | within five minutes of a record stored for an email, the same address sent again with a leading space is refused with 429, whatever the IP |
| `ScoreApi.OrDefault` | backend/server.js:92-93 | a parse that gives NaN or 0 falls back to the default (10 for the limit, 1 for the page); any other parse is kept |
| `ScoreApi.CeilDiv` | backend/server.js:103 | for a positive limit the page count is the least n with n·limit ≥ total |
| `ScoreApi.ListScores` | backend/server.js:90-115 | skip is (page−1)·limit and a negative skip is an error. The data is the ranked records from skip on, min(limit,100) of them when available. totalPages is ceil(total/limit) with the uncapped limit. hasNext ⇔ page < totalPages and hasPrev ⇔ page > 1 |
| `ScoreApi.HasNextIffMoreRecords` | backend/server.js:103-112 | for a positive limit, hasNext holds exactly when page·limit < total, that is, when records exist past the page |
| `ScoreApi.OversizedLimitSkipsRanks` | backend/server.js:94-98 | for every limit above 100, a page lists only the first 100 ranks after its skip, while the next page starts a whole limit later, so the ranks in between are never listed |

## Left out

- Rendering, JSX, CSS and icons, frontend/src/App.jsx:216-355: these are display only.
- The `setInterval` timer and the event-listener registration, frontend/src/App.jsx:82-90, 121-122, 183-192: a tick is an explicit `Tick` call, and an input is an explicit handler call.
- Interleavings of React's batched state updates with ticks, and stale closures: the model runs every handler to completion, one at a time.
- The distribution of `Math.random`: the random numbers are a supplied sequence of draws in [0,1).
- SnakeSession.Game.Tick: when the snake eats and none of the supplied draws is free, the source's loop never returns. The model requires a free draw on an eating tick instead of modelling the hang.
- SnakeSession.Game.TouchEnd: touch coordinates are integers here; browsers report them as floating-point numbers.
- ScoreApi.Lower: only the letters A to Z are lower-cased; JavaScript's `toLowerCase` also maps other Unicode letters.
- ScoreApi.Validate: string lengths count Dafny characters, whereas JavaScript counts UTF-16 code units, so a string with characters outside the Basic Multilingual Plane is shorter here.
- ScoreApi.Validate: an object's `length` key counts only when it is a number; JavaScript would also convert a string or boolean `length` for the comparison.
- ScoreApi.ThrottleKey: the model takes the query to cast the filter through the schema setters, which Mongoose does by default from version 5. The Mongoose version in use is not part of the model.
- ScoreApi.Submit: the database's schema validation on save is not modelled: the email pattern, and `required` failing on a name or email that trims to empty. These give a 400 in the source; here such a submission is stored.
- The duplicate-key (11000) branch is not modelled: no unique index exists.
- `parseInt` itself is not modelled: the listing takes its result, with NaN as None.
- The listing takes the collection already in the query's sort order and returns whole records; the field projection `select` is not modelled.
- ScoreApi.ListScores: a negative skip and a negative limit follow MongoDB's conventions (a negative skip is refused, a negative limit is read as its absolute value); the code does not state these.
- Express, helmet, CORS and the rate-limit middleware; the connection and schema setup; `getClientIP` (the IP is a parameter); `/api/scores/highest`, `/api/stats`, the 404 and 500 handlers, `listen` and SIGTERM handling: these are framework, I/O and floating-point aggregation.
- frontend/src/pages/Top5Leaderboard.jsx is not part of this model: it is fetch I/O and display lookups.
