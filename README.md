# Sign-up page interactivity, modelled in Dafny

This project models the decision logic of a page script (`script.js`) that
adds interactivity to a static web page. The DOM reads and writes are
replaced by plain values. The model covers six parts:

- **Field validators** (`Validation`). There is one validator each for name,
  email, password and age. Each one checks its value against an ordered list
  of rules. The first rule that fails decides the message; a value that
  passes every rule is `Valid`. The name and email values are trimmed first
  (`Text.Trim`). The password and age values are not.
- **Number conversion for the age** (`Numbers`). This is the part of
  JavaScript's string-to-number conversion that the age check uses,
  restricted to integers.
- **Form submit** (`Form`). All four validators run on every submission. The
  submission succeeds when all four pass. A success shows
  "Form submitted successfully!" and resets the form.
- **Counter game** (`CounterGame`). A count that starts at 0 and changes under
  the button labels "Increment", "Decrement" and "Reset". The display is
  coloured by the sign of the count.
- **FAQ accordion** (`FaqAccordion`). A click on a question hides every other
  answer and flips its own. Each question's `aria-expanded` flag mirrors its
  answer.
- **Theme button** (`Theme`). A click toggles dark mode and relabels the
  button.

The validators, the number conversion and the submit decision are pure
functions. The counter, the accordion and the theme button are classes whose
methods update their fields in place, as the script's handlers do. The
accordion keeps its flags in arrays and clears them in a loop. Each class
method is proved against a pure function: `CounterGame.Step` and
`CounterGame.ColourOf`, `FaqAccordion.AfterClick`, and `Theme.LabelFor`. The
lemmas are proved about those functions.

The email pattern `^[^\s@]+@[^\s@]+\.[^\s@]+$` is defined twice:

- `Validation.EmailRegex` is the split the pattern demands, written out as a
  quantified predicate.
- `Validation.SplitAtFirstAt` decides the same thing directly. It finds the
  first '@', checks that there is no whitespace and no second '@', and looks
  for a '.' strictly inside the part after the '@'.

`Validation.SplitAtFirstAtIsRegex` proves that the two agree, and
`Validation.EmailShape`, the test the email validator runs, states it.

Whitespace, both for `\s` and for trimming, is the ASCII set: space, tab,
line feed, vertical tab, form feed and carriage return.

## Model

| member | source | states |
|---|---|---|
| `Text.Trim` | script.js:145 | the trimmed value is the slice of the input after its leading whitespace; everything cut away is whitespace; the result neither starts nor ends with whitespace; it is empty exactly when the input is all whitespace |
| `Text.TrimPadded` | script.js:145 | trimming a value that starts and ends with non-whitespace, padded with whitespace on both sides, gives back exactly that value |
| `Text.TrimIdempotent` | script.js:169 | trimming an already trimmed value changes nothing |
| `Text.AllChars` | script.js:157 | every character of the value is in the class. It holds on the empty value, so each caller first rules out the empty value with a length check in the same decision, as the `+` of the anchored pattern demands: `|name| >= 2` in `ValidateName`, and `0 < at` and `|domain| >= 3` in `SplitAtFirstAt` |
| `Text.AnyChar` | script.js:201-206 | an unanchored one-class test (`/[A-Z]/`, `/[0-9]/`) holds exactly when some character is in the class |
| `Validation.ValidateName` | script.js:142-164 | "Name is required" iff the trimmed value is empty; "Name must be at least 2 characters" iff it has one character; "Name can only contain letters and spaces" iff it has two or more and some character is neither a letter nor whitespace; valid iff it has two or more characters and all of them are letters or whitespace |
| `Validation.SplitAtFirstAtIsRegex` | script.js:176-177 | the direct test, split at the first '@', accepts a value exactly when the value matches `^[^\s@]+@[^\s@]+\.[^\s@]+$`, in both directions |
| `Validation.EmailShape` | script.js:176-177 | `emailRegex.test` holds of a value exactly when the value matches the pattern |
| `Validation.ValidateEmail` | script.js:166-184 | "Email is required" iff the trimmed value is empty; "Please enter a valid email address" iff it is non-empty and does not match the pattern; valid iff it matches |
| `Validation.ValidatePassword` | script.js:186-213 | the untrimmed value is checked in the order empty, shorter than 8, no `A`-`Z`, no `0`-`9`; each message is given exactly when its check is the first to fail; valid iff the length is at least 8 with an uppercase letter and a digit |
| `Validation.ValidateAge` | script.js:215-242 | "Age is required" iff the value is empty; "Age must be a number" iff it is non-empty and converts to NaN; "You must be at least 13 years old" iff it converts below 13; "Please enter a valid age" iff above 120; valid iff 13 to 120 inclusive |
| `Validation.DecimalAgeVerdict` | script.js:220-241 | for an age written as any decimal integer n: too young below 13, out of range above 120, valid from 13 to 120 |
| `Validation.BlankAgeTooYoung` | script.js:220-233 | an age of spaces alone is not "required" (the value is not trimmed) but converts to 0 and is refused as too young |
| `Validation.Validate` | script.js:136-139 | the validator each field's input listener runs gives that field's "required" message for an empty value, and is valid exactly when the value meets that field's acceptance predicate (trimmed name, trimmed email, raw password, raw age) |
| `Validation.SamplePasswords` | script.js:186-213 | "Abc12345" is valid; "abcdefgh" lacks an uppercase letter |
| `Validation.SampleEmail` | script.js:166-184 | "not-an-email" is not a valid address |
| `Validation.SampleNames` | script.js:142-164 | "Jo" is valid; "John123" has characters other than letters and spaces |
| `Validation.PaddedAgeVerdict` | script.js:220-241 | an age written with surrounding whitespace, an optional '+' and leading zeros gets the same range verdict as its plain decimal notation |
| `Validation.SamplePaddedAges` | script.js:220-241 | " 120 " and "+013" are valid; a tab before "012" is too young |
| `Validation.SampleAges` | script.js:215-242 | "12" is too young, "13" is valid, "121" is out of range |
| `Numbers.ToNumberDecimalString` | script.js:225-235 | converting the decimal notation of any integer gives that integer back |
| `Numbers.LeadingZeros` | script.js:225 | leading zeros do not change the value of a run of digits |
| `Numbers.PaddedLiteral` | script.js:225-235 | a value made of whitespace, an optional '+' or '-', any number of zeros, the decimal notation of n and more whitespace converts to n, or to -n after a '-' |
| `Numbers.ToNumber` | script.js:225-235 | the conversion behind `isNaN(age)`, `age < 13` and `age > 120`: a value of whitespace alone converts to 0, and a trimmed value converts to NaN exactly when it is not an optionally signed non-empty run of digits; `Numbers.PaddedLiteral` gives the value every such literal converts to |
| `Form.Submit` | script.js:115-133 | every field's verdict is its own validator's verdict, whatever the other fields hold; the success text is shown and the form reset iff all four are valid; otherwise the success text is empty |
| `Form.SubmitSucceedsIff` | script.js:123-132 | a submission succeeds iff the trimmed name, the trimmed email, the password and the age each meet their field's rules |
| `CounterGame.ColourOf` | script.js:76-82 | green iff the count is positive, red iff negative, the default colour iff zero |
| `CounterGame.StepsCancel` | script.js:61-67 | for `Step`, the switch on the button label: a decrement undoes an increment and an increment undoes a decrement |
| `CounterGame.RunAppend` | script.js:57-71 | clicking one run of buttons and then another is the same as clicking them all in order |
| `CounterGame.RunWithoutReset` | script.js:61-71 | specifies `Step`, the switch on the button label, over any run of clicks: with no reset, the count moves by the number of increments minus the number of decrements; any other label leaves it unchanged |
| `CounterGame.RunAfterLastReset` | script.js:61-71 | specifies `Step`'s reset case: after the last reset, the count is the increments minus the decrements that followed it, whatever came before |
| `CounterGame.Counter.constructor` | script.js:55 | the count starts at 0 |
| `CounterGame.Counter.Click` | script.js:58-83 | the new count is one step of the clicked label from the old count; the display shows the count; the colour is the count's sign class |
| `FaqAccordion.AfterClick` | script.js:92-104 | after a click on question i, every answer other than i is hidden and answer i is flipped; the number of questions is unchanged |
| `FaqAccordion.ClickLeavesAtMostOne` | script.js:92-104 | after any click at most one answer is shown: none if the clicked answer was open, otherwise exactly that one |
| `FaqAccordion.ClickTwiceRestores` | script.js:92-104 | clicking the only open question (or any question when none is open) twice returns to the starting state |
| `FaqAccordion.ClickOtherSwitches` | script.js:92-104 | clicking question k after question i != k leaves exactly answer k shown |
| `FaqAccordion.Accordion.Click` | script.js:90-105 | the answers shown afterwards are `AfterClick` of those shown before (every other answer hidden, the clicked one flipped), every question's `aria-expanded` equals its answer's visibility, and the accordion's invariant still holds |
| `Theme.LabelFor` | script.js:49 | the button reads "Light Mode" iff dark mode is on and "Dark Mode" iff it is off |
| `Theme.ThemeToggle.Toggle` | script.js:47-50 | a click flips dark mode, and the label then matches the new mode |

## Left out

- Event registration, `DOMContentLoaded`, and the element lookups are not modelled. They only wire the handlers to the page.
- `showError`, `clearError` and `clearErrorMessages` are not modelled (script.js:245-261). Each validator's returned verdict stands for the message it shows or clears.
- The click-box timer, the hover demo and the keyboard demo are not modelled (script.js:10-39). They have no decision logic.
- `userForm.reset()` is not modelled beyond the `reset` flag of `Form.Submit`. Its effect falls on form fields outside the model.
- Validation.ValidateAge: the model converts only integers. It accepts an optionally signed run of decimal digits with optional surrounding whitespace, and a value of whitespace alone converts to 0. Every other value is treated as NaN. The script's `Number` conversion also accepts fractions, exponents, hexadecimal, octal and binary literals, and `Infinity`. So "13.5", "1e2" and "Infinity" get "Age must be a number" here, but a different verdict on the page.
- Numbers.ToNumber: for the same reason, this conversion covers only the integer subset described above, and its trimming uses the ASCII whitespace set.
- Text.Trim: whitespace is the ASCII set only. JavaScript's `\s` and `trim` also cover no-break space, the byte-order mark, the line and paragraph separators, and the other Unicode space separators. This also affects `Validation.ValidateName` and `Validation.ValidateEmail`.
- Validation.ValidatePassword: length is counted in Unicode characters. The script counts UTF-16 code units, so a character outside the Basic Multilingual Plane counts once here and twice on the page. `Validation.ValidateName` counts length the same way.
- CounterGame.Step: the count is an unbounded integer. The script's `count` is a double-precision Number, so past 2^53 an increment or decrement no longer changes it; the model does not capture that limit.
- CounterGame.Counter.Click: the display holds the count as an integer rather than as its text. The colours are the three-way `Colour` classification rather than CSS colour strings.
- CounterGame.Counter.constructor: the script does not write the display before the first click, so what it shows and its colour until then come from the page markup. The constructor promises only that the count starts at 0.
- FaqAccordion.Accordion.constructor: the page markup is not part of this model. The accordion starts with no answer shown, which is how an answer with no inline `display: block` reads to the click handler. All `aria-expanded` flags start false.
- FaqAccordion.Accordion.Click: the script compares DOM nodes (`q !== this`); the model compares question indices. Each answer is taken to be its question's next sibling.
- Theme.ThemeToggle.constructor: the starting mode and label come from the markup, so they are parameters.
