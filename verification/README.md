# Subscription dashboard: price cleaning and monthly figures

This project is a Dafny model of the computational core of a small
subscription tracker. The tracker is a Streamlit page backed by a Google
Sheet. Each row of the sheet holds a subscription: a name, a price cell, a
period ("Mensuel" or "Annuel") and a next due date. The page shows three
figures built from one snapshot of the sheet:

- the number of rows;
- the monthly total;
- the subscriptions due within the next seven days.

The model covers these parts of the core:

- **The price cleaner** (`nettoyer_prix`). It turns any cell into a number.
  Euro signs, dollar signs and spaces are deleted, and commas become periods.
  The result is then read as a decimal number; text that is not a number is
  worth zero.
- **The monthly total.** A row whose period is exactly "Mensuel" adds its
  price, and every other row adds a twelfth of it.
- **The due-soon filter.** It keeps the rows due between today and
  today + 7, both days included, in sheet order.
- **The row count.**
- **The empty-sheet guard.** An empty sheet shows none of the figures.

Modules follow the program's steps:

| module | file | what it holds |
|---|---|---|
| `Wrappers` | wrappers.dfy | `Option` |
| `Cleaning` | cleaning.dfy | the four text substitutions of the cleaner |
| `Decimal` | decimal.dfy | the decimal numerals the number reader accepts, and their values |
| `Prices` | prices.dfy | the cleaner as a whole: `TryPrice` (failure kept visible) and `CleanPrice` (failure priced at zero) |
| `PriceCases` | price_cases.dfy | the cleaner on the formats it was written for |
| `Seqs` | seqs.dfy | generic `Map` and `Sum` over sequences, with concatenation and permutation lemmas |
| `Ledger` | ledger.dfy | rows, the cleaned price column, each row's monthly share, the total and the accumulating loop |
| `DueSoon` | due_soon.dfy | the seven-day window and the filter |
| `Dashboard` | dashboard.dfy | the figures for one snapshot, and how they react to appending and reordering rows |

The model represents values as follows:

- Prices are exact `real`s.
- Dates are `int` day numbers, so `today + 7` is seven days later.
- The price cell reaches the cleaner as the text `str()` gives it.

Four consequences of the code are worth stating, and the model keeps them:

- **Negative prices are kept.** The cleaner does not clamp: "-3,50" and
  "-0,50" become -3.5 and -0.5, and such a row lowers the monthly total
  (`NegativeNotClamped`, `NegativeExample`, `NegativeFractionExample`,
  `NegativeTotal`).
- **The period labels are French.** The period is compared with the label
  "Mensuel". Any other label counts as yearly, including "Annuel", a
  misspelling, or "mensuel" in lower case (`ShareExamples`).
- **Only the ASCII space is deleted.** Other blanks, such as the no-break
  space, are left in place.
- **Thousands separators do not work.** A price like "1,234.56" cleans to
  "1.234.56". That text is not a number, so its price is zero
  (`ThousandsFallBack`).

## Model

| member | source | states |
|---|---|---|
| Cleaning.RemoveContents | app.py:29 | Deleting one character keeps every other character of the text and no occurrence of the deleted one; the text never grows |
| Cleaning.ReplacePointwise | app.py:31 | Replacing the comma by a period changes exactly the comma positions and keeps the length |
| Cleaning.Clean | app.py:27-31 | The cleaned text is no longer than the input, contains no euro sign, dollar sign, space or comma, and only contains characters of the input or periods |
| Cleaning.CleanOneChar | app.py:29-31 | A single character is deleted if it is a currency sign or space, becomes a period if it is a comma, and is kept otherwise |
| Cleaning.RemoveConcat | app.py:29 | Deletion works character by character, so it distributes over concatenation |
| Cleaning.ReplaceConcat | app.py:31 | Comma replacement distributes over concatenation |
| Cleaning.CleanConcat | app.py:29-31 | The cleaner treats the two halves of any split of the text independently |
| Cleaning.RemoveAbsent | app.py:29 | Deleting a character that does not occur leaves the text unchanged |
| Cleaning.CleanFixedPoint | app.py:29-31 | The cleaner leaves a text unchanged exactly when the text holds no currency sign, space or comma |
| Cleaning.CleanIdempotent | app.py:29-31 | Cleaning twice gives the same text as cleaning once |
| Cleaning.CleanAllNoise | app.py:29 | A text made only of currency signs and spaces cleans to the empty text |
| Cleaning.CleanIgnoresNoise | app.py:29 | Inserting a euro sign, dollar sign or space anywhere does not change the cleaned text |
| Cleaning.CleanCommaIsPoint | app.py:31 | A comma and a period at the same position clean to the same text |
| Cleaning.CleanDollarExample | app.py:26-31 | "$2.99" cleans to "2.99" |
| Cleaning.CleanSpacedExample | app.py:29 | " 2.99 " cleans to "2.99" |
| Cleaning.CleanEuroExample | app.py:26-31 | "2,99 €" cleans to "2.99" |
| Cleaning.CleanThousandsExample | app.py:31 | "1,234.56" cleans to "1.234.56", with two periods |
| Decimal.IndexOf | app.py:33 | The first occurrence of a character is found, with none before it; a missing character is reported as absent |
| Decimal.SplitSign | app.py:33 | The leading sign and the rest of the text put back together give the text |
| Decimal.SplitPoint | app.py:33 | The numeral read from a signless body renders back to the sign followed by that body |
| Decimal.Lex | app.py:33 | Whatever the reader accepts is a valid numeral whose text is exactly the input |
| Decimal.LexRender | app.py:33 | Every valid numeral's text is read back as that numeral (the reader is complete and unambiguous) |
| Decimal.LexExact | app.py:33 | The reader returns a numeral exactly when the numeral is valid and its text is the input |
| Decimal.DigitValue | app.py:33 | A decimal digit's value is below ten |
| Decimal.Pow10 | app.py:33 | Powers of ten are at least one |
| Decimal.DigitsValue | app.py:33 | A digit string of length k is worth less than 10^k |
| Decimal.DigitsValueConcat | app.py:33 | Appending digits shifts the value left by as many decimal places |
| Decimal.Magnitude | app.py:33 | A numeral's magnitude lies between its integer part and the next integer |
| Decimal.Value | app.py:33 | Only a minus sign makes a value negative; any other numeral is worth at least zero |
| Decimal.NumeralScaled | app.py:33 | A numeral is worth its digits read as one integer, divided by ten to the number of fraction digits |
| Decimal.SignEffect | app.py:33 | A minus sign negates the magnitude, and a plus sign or no sign keeps it |
| Decimal.ParseExact | app.py:32-35 | The number reader fails exactly when the text is no valid numeral, and otherwise returns that numeral's value |
| Prices.TryPriceExact | app.py:25-35 | Cleaning then reading fails exactly when the cleaned text is no numeral, and otherwise yields the numeral's value |
| Prices.CleanPrice | app.py:25-35 | Unreadable text is priced at zero, every non-zero price is the value read from the cleaned text, and a negative price needs a minus sign in the raw cell |
| Prices.NegativeNeedsMinus | app.py:29-33 | A successful reading is negative only if the raw text holds a minus sign |
| Prices.PriceIgnoresNoise | app.py:29 | Inserting a euro sign, dollar sign or space anywhere does not change the price |
| Prices.PriceCommaIsPoint | app.py:31 | A comma is read as a decimal point at the same position |
| Prices.PlainTextVerbatim | app.py:27-33 | Text without currency signs, spaces or commas is handed to the number reader unchanged |
| Prices.CleanRenderWith | app.py:29-31 | A numeral written with a decimal point or a decimal comma cleans to its canonical text |
| Prices.PriceOfDecorated | app.py:25-35 | A numeral written with either separator and surrounded by any currency signs and spaces is priced at its value |
| Prices.PriceOfNumeral | app.py:32-33 | A numeral's own text is priced at its value |
| Prices.PriceViaClean | app.py:25-35 | Any raw text that cleans to a numeral's text is priced at that numeral's value |
| Prices.NegativeNotClamped | app.py:32-33 | Every minus-signed numeral of non-zero size, "-0.5" and "-.5" included, keeps its negative price: the cleaner does not clamp (for magnitudes inside the range of a double; see "Left out") |
| PriceCases.TwoNinetyNine | app.py:26 | The numeral 2.99 is valid and is written "2.99" with a point and "2,99" with a comma |
| PriceCases.SeparatorFormats | app.py:26 | "2.99" and "2,99" are both priced at 2.99 |
| PriceCases.DollarFormat | app.py:26 | "$2.99" is priced at 2.99 |
| PriceCases.SpacedFormat | app.py:29 | " 2.99 " is priced at 2.99 |
| PriceCases.EuroFormat | app.py:29-31 | "2,99 €" is priced at 2.99 |
| PriceCases.LettersFallBack | app.py:34-35 | "abc" does not parse and is priced at zero |
| PriceCases.ThousandsFallBack | app.py:31-35 | "1,234.56" does not parse after cleaning and is priced at zero |
| PriceCases.ZeroParses | app.py:33 | "0" parses, to zero |
| PriceCases.ZeroIsAmbiguous | app.py:32-35 | The price of "0" and of "abc" is the same although only one of them parses |
| PriceCases.NegativeExample | app.py:29-33 | "-3,50" is priced at -3.5 |
| PriceCases.NegativeFractionExample | app.py:29-33 | "-0,50", negative with a zero integer part, is priced at -0.5 |
| Ledger.CleanColumnPointwise | app.py:85 | Cleaning the column keeps one row per row, runs each price cell through the cleaner, and leaves name, period and due date untouched |
| Ledger.SumMonthly | app.py:91-96 | The loop that starts at zero and adds each row's share in sheet order ends with the sum of all the shares |
| Ledger.ShareRules | app.py:93-96 | A "Mensuel" row adds its price; any other row adds a twelfth of it; a non-negative price adds between zero and the price |
| Ledger.ShareExamples | app.py:93-96 | 120 "Annuel" adds 10, 10 "Mensuel" adds 10, and 120 "mensuel" in lower case adds 10 |
| Ledger.MonthlyTotalConcat | app.py:91-96 | The total over two blocks of rows is the sum of their totals |
| Ledger.MonthlyTotalOne | app.py:93-96 | The total of a single row is that row's share |
| Ledger.MonthlyTotalPermutation | app.py:91-96 | Reordering the rows does not change the total |
| Ledger.MonthlyTotalBounds | app.py:91-96 | With no negative price, the total is at least zero and at most the plain sum of the prices |
| Ledger.NegativeTotal | app.py:91-96 | A single -12 "Annuel" row makes the total -1 |
| DueSoon.Upcoming | app.py:104 | The filter keeps exactly the rows whose due day is between today and today + 7 inclusive, and never adds a row |
| DueSoon.UpcomingCounts | app.py:104 | Each row in the window is kept as many times as it occurs, and every other row is dropped |
| DueSoon.UpcomingConcat | app.py:104 | Filtering two blocks is filtering each in turn, so sheet order is kept |
| DueSoon.UpcomingOne | app.py:104 | A single row is kept exactly when it is due in the window |
| DueSoon.WindowEnds | app.py:104 | Today and today + 7 are in the window; yesterday and today + 8 are not |
| DueSoon.UpcomingExample | app.py:104 | Of rows due today, in 3 days, in 8 days and yesterday, only the first two are kept, in order |
| Dashboard.Summarize | app.py:82-104 | Figures exist exactly when the sheet has rows. The count is the number of rows. The alerts are exactly the in-window rows of the sheet with their prices cleaned: each alert is such a row, every such row is alerted, and there are no more alerts than rows |
| Dashboard.SummarizeOne | app.py:82-104 | A one-row sheet shows a count of one, that row's share as the total, and the row as the only alert exactly when it is due within the window; with `AppendRow` this fixes the figures of every sheet |
| Dashboard.AppendRow | app.py:91-104 | A row added at the end of a non-empty sheet raises the count by one and the total by its share, and joins the end of the alerts exactly when it is due within the window |
| Dashboard.SummaryPermutation | app.py:82-104 | Reordering the sheet changes neither whether figures are shown, nor the count, nor the total, and changes the alerts only in their order |

## Left out

- The Streamlit page is not modelled: rendering, the sidebar form, the buttons, messages and reruns are all left out (app.py:58-80, 97-120). The figures are modelled; their display is not.
- The connection to the Google Sheet (`get_connection`) and the reading of its records (`load_data`) are left out. The sheet is a parameter: a sequence of rows, each with its cells as text and its due date as a day number.
- `add_subscription` is not modelled as I/O. `Dashboard.AppendRow` states only how one appended row changes the figures. The store's round trip of `float(prix)` through a numeric cell is left out.
- `delete_subscription` is left out. It deletes the row of the first cell anywhere in the sheet whose text matches the name, and that depends on how the store searches cells, which this model does not include.
- Date parsing (`pd.to_datetime`) and the clock (`datetime.now`) are left out. Due dates and today are integer day numbers given as parameters, and an unparsable date (which stops the page) is not represented. A missing due date is not represented either: `pd.to_datetime` turns an empty cell (or "NaT", "nan") into NaT without raising, and the window test at app.py:104 is then false. Such a row is still counted and totalled but never alerted, a case the model's integer `due` cannot express.
- Decimal.Lex: accepts only an optional sign, digits, and an optional point followed by digits, with at least one digit in total. Python's `float()` also accepts exponents, "inf" and "nan", underscores between digits, non-ASCII digits and surrounding whitespace other than the ASCII space. Texts using those forms are priced at zero here, while the application reads them as numbers.
- Decimal.Value: exact rational arithmetic. The application uses binary floating point, so its sums and twelfths can differ from these values in the last bits. At the ends of the double range the difference is not small: `float()` returns infinity for numerals above about 1.8e308 and a zero (signed like the numeral) for non-zero numerals below about 5e-324 in size, while the model keeps the exact value. The rounding to two places for display is left out too.
- Prices.NegativeNotClamped: holds of the program only for magnitudes the double format can represent as non-zero. A numeral such as "-0." followed by 400 zeros and a "1" is read by the program as -0.0, which is not below zero, while the model prices it at its exact, negative value.
- Dashboard.Summarize: every row is assumed to carry a due date. A row whose due cell is empty is counted and totalled by the program but never alerted; the model has no such row (see the date-parsing line above).
- Prices.CleanPrice: modelled on the cell's text. The cell first goes through `str()`, and how the store and `str()` render numeric cells (for instance "2.99" or "1e-05") is left out.
- Ledger.SumMonthly: the application's total starts as the integer 0 and becomes a float; the model uses exact reals from the start.
