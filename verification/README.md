# LiveInvestmentData in Dafny

LiveInvestmentData is a small Python library that scrapes prices, news headlines and
financial statements from coinmarketcap.com and marketwatch.com. It downloads a page and
finds elements with BeautifulSoup. Then it does a little text processing of its own, and
that processing is what this project models and proves things about:

- **Prices** (`crypto_price`, `stock_price`). A loop walks the price text and deletes every
  character that is neither a digit nor a point. The rest goes to `float()`. `stock_price`
  strips the text first.
- **Financial statements** (`marketwatch_income_statement`, `marketwatch_balance_sheet`,
  `marketwatch_cash_flow`). `time_period` picks the page URL. The table rows with the
  requested class are cut into token groups: the text is split on `'\n\n'`, then each chunk
  on `'\n'`, and one `''` and one `' '` are removed. Even-indexed groups are labels and each
  odd-indexed group is the value of the label before it. The three functions have the same
  body apart from the URL segment, so the model defines that body once.
- **News** (`coinmarketcap_news`, `marketwatch_news`, `stock_news`). Each anchor becomes a
  dictionary entry from its (normalised) text to its `href`. A later headline overwrites an
  earlier one.

The page itself is an input. A price element is `Price.PriceElement`. The `coinmarketcap_news`
container is a sequence of `News.Anchor`s. The `marketwatch_news` container is a sequence of
`h3` headings, each holding its first anchor or None. Either container is `None` when `find`
matched nothing. A statement page is the rows of its `element__body` divs
(`Financials.TableRow`), returned by a `fetch` function parameter. Python exceptions are values
of `Wrappers.PyError` inside a `Result`.

Files:

- `wrappers.dfy`: `Option`, `Result`, `PyError`.
- `seqs.dfy`: the list and dict behaviour the source relies on:
  - filtering;
  - subsequences;
  - the guarded `list.remove`;
  - last-wins dictionary building (`LastWins`).
- `pystrings.dfy`: `str.strip`, `str.lower`, `str.split` and `str.join`.
- `price.dfy`: the price filter, the `float()` conversion and the two price scrapers.
- `financials.dfy`: URL choice, row selection, tokenisation, pairing and the statement scrapers.
- `news.dfy`: the three news functions.

All paths below are relative to the repository root, and every line number refers to
`src/liveinvestmentdata/liveinvestmentdata.py`.

## Model

| member | source | states |
|---|---|---|
| Price.DeleteAll | src/liveinvestmentdata/liveinvestmentdata.py:109 | `replace(c, '')` leaves no `c` behind. Every other character keeps all of its copies, in its original order. |
| Price.StripPrice | src/liveinvestmentdata/liveinvestmentdata.py:104-109 | The loop runs over the original text while deleting from a working copy. It leaves exactly the digits and points, in their original order, with every copy of each kept. The result equals the reference filter `PriceChars`. |
| Price.PriceCharsIdempotent | src/liveinvestmentdata/liveinvestmentdata.py:104-109 | Running the clean-up on text it has already cleaned changes nothing. |
| Price.PriceCharsIgnoresStrip | src/liveinvestmentdata/liveinvestmentdata.py:175-181 | Stripping the text before the clean-up loop, as `stock_price` does, leaves the same digits and points. |
| Price.ToFloat | src/liveinvestmentdata/liveinvestmentdata.py:110 | `float()` on the cleaned text fails only with ValueError. Success and the value are characterised by the three lemmas that follow. |
| Price.ToFloatAccepts | src/liveinvestmentdata/liveinvestmentdata.py:110 | `float()` on a text of digits and points succeeds exactly when the text has at least one digit and at most one point. Otherwise it raises ValueError. |
| Price.ToFloatPointValue | src/liveinvestmentdata/liveinvestmentdata.py:110 | `a.b` converts to the number whose digits are those of `a` then `b`, divided by 10 to the number of digits of `b`. A lone point raises ValueError. |
| Price.ToFloatIntegerValue | src/liveinvestmentdata/liveinvestmentdata.py:110 | A non-empty run of digits converts to its integer value. |
| Price.PriceCharsAccepted | src/liveinvestmentdata/liveinvestmentdata.py:104-110 | The cleaned text converts exactly when the raw text has a digit and at most one point. |
| Price.CryptoPrice | src/liveinvestmentdata/liveinvestmentdata.py:97-110 | A missing price container re-raises AttributeError with the message "Crypto name must be spelled correctly". A container without a `span` raises IndexError. Found text converts exactly when it has a digit and at most one point, and otherwise raises ValueError. |
| Price.StockPrice | src/liveinvestmentdata/liveinvestmentdata.py:174-183 | A missing container raises the uncaught AttributeError from `find_all` on None. A container without an `h2` raises IndexError. Found text converts exactly when it has a digit and at most one point, and otherwise raises ValueError. |
| Price.PricePathsAgree | src/liveinvestmentdata/liveinvestmentdata.py:175-183 | On the same found text, the stock path (strip, then filter) and the crypto path (filter only) give the same result. |
| Price.DollarExample | src/liveinvestmentdata/liveinvestmentdata.py:104-110 | `"$1,234.56"` is cleaned to `"1234.56"`, which converts to exactly 1234.56. |
| PyStrings.Strip | src/liveinvestmentdata/liveinvestmentdata.py:175 | `strip()` never lengthens the text, and its result neither starts nor ends with whitespace. |
| PyStrings.StripShape | src/liveinvestmentdata/liveinvestmentdata.py:175 | The result of `strip()` is a contiguous infix of the text, and everything outside it is whitespace. |
| PyStrings.StripIdempotent | src/liveinvestmentdata/liveinvestmentdata.py:259 | Stripping a stripped headline changes nothing. |
| PyStrings.Lower | src/liveinvestmentdata/liveinvestmentdata.py:287 | `lower()` keeps the length. Each upper-case letter becomes the lower-case letter at the same place in the alphabet, every other character is unchanged, and no upper-case letter is left. |
| PyStrings.LowerStripCommute | src/liveinvestmentdata/liveinvestmentdata.py:287 | Lower-casing and stripping commute. |
| PyStrings.Split | src/liveinvestmentdata/liveinvestmentdata.py:362-364 | `split(sep)` returns at least one piece. Joining the pieces with `sep` gives back the text, and no piece contains `sep`. Each cut is made at the leftmost remaining occurrence. |
| Seqs.RemoveFirst | src/liveinvestmentdata/liveinvestmentdata.py:365-368 | The guarded `remove` leaves a list without the element unchanged, and shortens a list with the element by one. The result is a subsequence of the input. |
| Seqs.RemoveFirstAt | src/liveinvestmentdata/liveinvestmentdata.py:365-368 | The element removed is the first occurrence and nothing else. |
| Seqs.LastWins | src/liveinvestmentdata/liveinvestmentdata.py:259 | Assigning `d[k] = v` pair by pair gives at most one entry per assignment; the same fold builds the dictionaries at lines 288 and 376. LastWinsKeys and LastWinsValue say which entries. |
| Seqs.LastWinsKeys | src/liveinvestmentdata/liveinvestmentdata.py:374-376 | Assigning `d[k] = v` pair by pair gives a dictionary whose keys are exactly the keys assigned. |
| Seqs.LastWinsValue | src/liveinvestmentdata/liveinvestmentdata.py:374-376 | Each key holds the value of its last assignment. |
| Financials.PageUrl | src/liveinvestmentdata/liveinvestmentdata.py:348-351 | A page is chosen exactly when `time_period` is `'annual'` or `'quarter'`. Any other value leaves `page` unbound, which raises UnboundLocalError. |
| Financials.QuarterBelowAnnual | src/liveinvestmentdata/liveinvestmentdata.py:348-351 | The quarterly URL is the annual URL followed by `/quarter`. |
| Financials.PageUrlInjective | src/liveinvestmentdata/liveinvestmentdata.py:408-411 | For one ticker, two different statements or two different periods never give the same URL. |
| Financials.SelectRows | src/liveinvestmentdata/liveinvestmentdata.py:355-360 | The selected rows all carry the requested class. Every row that carries the class is selected as many times as it occurs, and document order is kept. |
| Financials.SelectRowsUnique | src/liveinvestmentdata/liveinvestmentdata.py:355-360 | Those three properties determine the selection: any in-order choice of rows that satisfies them is the selection. |
| Financials.SelectRowsComplete | src/liveinvestmentdata/liveinvestmentdata.py:355-360 | Every row of every `element__body` div that carries the class is selected, as many times as it occurs in the page. |
| Financials.Tokens | src/liveinvestmentdata/liveinvestmentdata.py:364 | The tokens of a chunk are its `'\n'` pieces, in order, with at most two pieces gone. |
| Financials.DropBlanks | src/liveinvestmentdata/liveinvestmentdata.py:365-368 | The two guarded removals keep the other pieces in order and remove at most two. DropBlanksAt says which two. |
| Financials.DropBlanksAt | src/liveinvestmentdata/liveinvestmentdata.py:365-368 | The piece removed first is the first `''`. The piece removed next is the first `' '` of what remains. Each removal happens only if the piece is present, and every other piece stays in place. |
| Financials.DropBlanksCounts | src/liveinvestmentdata/liveinvestmentdata.py:365-368 | One copy of `''` and one copy of `' '` are removed where present. Every later blank or single-space piece survives. |
| Financials.DropBlanksExample | src/liveinvestmentdata/liveinvestmentdata.py:365-368 | `['', 'Revenue', '']` becomes `['Revenue', '']`, so the label stays `'Revenue'`. `[' ', '', '7', ' ']` becomes `['7', ' ']`. |
| Financials.ChunkTokens | src/liveinvestmentdata/liveinvestmentdata.py:362-364 | A row's text gives one token list per `'\n\n'`-chunk, empty lists included. |
| Financials.ChunkTokensPieces | src/liveinvestmentdata/liveinvestmentdata.py:362-364 | Token list `i` is the `'\n'` pieces of the `i`-th `'\n\n'`-chunk, in order, with at most two gone. |
| Financials.RowGroups | src/liveinvestmentdata/liveinvestmentdata.py:362-370 | A row contributes its chunks' token lists in order. Every non-empty list is kept, each copy of it, and only the empty lists are skipped. |
| Financials.RowGroupsUnique | src/liveinvestmentdata/liveinvestmentdata.py:362-370 | Those properties determine the groups: any in-order choice that satisfies them is the row's groups. |
| Financials.Groups | src/liveinvestmentdata/liveinvestmentdata.py:356-370 | No group in `vals` is empty, so indexing a group at 0 is always in range. |
| Financials.GroupsAppend | src/liveinvestmentdata/liveinvestmentdata.py:356-370 | The groups of two runs of rows are the groups of the first run followed by those of the second. |
| Financials.Table | src/liveinvestmentdata/liveinvestmentdata.py:374-376 | Pairing fails exactly when the number of groups is odd, and the failure is IndexError. On success there are at most half as many labels as groups. |
| Financials.TableKeys | src/liveinvestmentdata/liveinvestmentdata.py:374-376 | The labels are exactly the first tokens of the even-indexed groups. |
| Financials.TableValue | src/liveinvestmentdata/liveinvestmentdata.py:374-376 | A label maps to the group after its last occurrence as a label. |
| Financials.TableExample | src/liveinvestmentdata/liveinvestmentdata.py:374-376 | Two label/value pairs give a two-entry table. A repeated label keeps only its last value. |
| Financials.BuildTable | src/liveinvestmentdata/liveinvestmentdata.py:374-376 | The loop over every index as written, which acts on even indices and reads `vals[x+1]`, gives the same result as `Table`. That includes the IndexError on an odd count. |
| Financials.Normalise | src/liveinvestmentdata/liveinvestmentdata.py:353-376 | After the download, a statement fails exactly when the selected rows give an odd number of groups, and the failure is IndexError. |
| Financials.Statement | src/liveinvestmentdata/liveinvestmentdata.py:346-376 | A scraper raises UnboundLocalError for an unknown period and IndexError for an odd group count, and nothing else. Otherwise it returns the normalised table of the page its URL names. |
| News.CoinMarketCapNews | src/liveinvestmentdata/liveinvestmentdata.py:256-261 | A missing news container raises AttributeError from `find_all` on None. Otherwise the result has at most one entry per anchor. |
| News.CoinNewsKeys | src/liveinvestmentdata/liveinvestmentdata.py:258-259 | The headlines are exactly the stripped anchor texts. |
| News.CoinNewsValue | src/liveinvestmentdata/liveinvestmentdata.py:258-259 | A headline maps to the `href` of the last anchor with that text, which is None when the attribute is missing. |
| News.MarketwatchNews | src/liveinvestmentdata/liveinvestmentdata.py:282-292 | A missing container raises AttributeError. Otherwise the result has at most one entry per `h3`. |
| News.MarketwatchKeys | src/liveinvestmentdata/liveinvestmentdata.py:285-290 | The headlines are exactly the stripped, lower-cased texts of the headings that contain an anchor. |
| News.MarketwatchKeysNormalised | src/liveinvestmentdata/liveinvestmentdata.py:287 | Every headline is already stripped and lower-case. |
| News.MarketwatchSkipsBareHeadings | src/liveinvestmentdata/liveinvestmentdata.py:289-290 | A heading without an anchor, whose AttributeError is swallowed, contributes nothing. |
| News.Anchors | src/liveinvestmentdata/liveinvestmentdata.py:285-290 | Only headings that have an anchor contribute one, so a heading whose `find('a')` raised AttributeError is skipped. An anchor appears exactly when some heading holds it. |
| News.AnchorsCounts | src/liveinvestmentdata/liveinvestmentdata.py:285-290 | Each anchor appears as many times as headings hold it. |
| News.MarketwatchValue | src/liveinvestmentdata/liveinvestmentdata.py:285-290 | A headline maps to the `href` of the anchor of the last heading whose text normalises to it. |
| News.MarketwatchLastWins | src/liveinvestmentdata/liveinvestmentdata.py:287-288 | Example: two headings whose texts differ only in case or surrounding whitespace give one entry, with the later link. |
| News.StockNews | src/liveinvestmentdata/liveinvestmentdata.py:310-315 | `stock_news` fails exactly when `marketwatch_news` does. Otherwise it returns a dictionary whose only key is `'marketwatch'`, holding the result of `marketwatch_news` unchanged. |

## Left out

- Downloading (`download_url`, `requests.get`) and HTML parsing (BeautifulSoup `find` and `find_all`) are left out. Their results are inputs to the model.
- `multi_crypto_price`, `multi_stock_price` and `stock_financial_data` are left out. They only start threads around the modelled functions and collect results in global dictionaries.
- The dual return path is left out. `crypto_price`, `stock_price` and the three statement scrapers write their result into a global dictionary when one exists. They return it only when that assignment raises: NameError for the prices (lines 113-116, 185-188), any exception for the statements (lines 379-383, 440-444, 500-504). That depends on thread-global state, so the model always returns. The news functions always return, as modelled.
- `float()` is modelled on texts of ASCII digits and points only, because that is all the clean-up loop lets through. The result is an exact decimal (`Decimal`) rather than a binary double, so rounding is not modelled.
- Price.IsDigit: `int(c)` also accepts non-ASCII decimal digits, such as Arabic-Indic ones. The model treats only `'0'`–`'9'` as digits.
- PyStrings.Lower: only ASCII letters are lower-cased, while Python's `lower()` follows full Unicode case mapping.
- Repeated headlines are not removed. The `stock_news` docstring says the function filters out repeats (line 298), but its code does no filtering and only stores `marketwatch_news`'s result (`News.StockNews`). Within one source a repeated headline keeps its last link (`News.CoinNewsValue`, `News.MarketwatchValue`).
- Financials.Statement: the Python defaults `key_data_only=False` and `time_period='quarter'` (lines 326, 386, 446) are not modelled. A call that relies on them corresponds to passing `false` and `"quarter"` explicitly.
- Dictionary order is not modelled. A Python dict keeps insertion order, and overwriting a key keeps its first position. The model's `map` is unordered, so the order of labels in a table and of headlines in a news dict is not stated.
- `__init__.py` and `setup.py` only re-export and package the module, so they are not part of this model.
