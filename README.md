# Weather report statistics, in Dafny

This project models the computational part of a small weather-report module
(`weather.py`): the helpers that a report is built from.

- `find_min` / `find_max` take a list of readings and return the smallest
  (largest) reading together with the **last** index at which it occurs, or
  the pair `(None, None)` for an empty list. They first take the built-in
  `min` / `max` and then scan the list, overwriting the remembered index
  each time the extreme value is met. `FindMin` and `FindMax` are methods
  with that same loop. `None` of an `Option<(int, nat)>` stands for
  `(None, None)`. The built-ins are the recursive functions `SeqMin` and
  `SeqMax`.
- `calculate_mean` returns `0.0` for an empty list and otherwise the sum
  divided by the length. `Mean` is exact over the reals. `Sum` is the
  built-in `sum`, accumulated from the left.
- `format_temperature` appends the suffix `DEGREE_SYMBOL` (the degree sign
  followed by `C`) to the text of a temperature. `FormatTemperature` takes
  that text as a `string`.

Everything lives in one module, `Weather`, in `weather.dfy`. The readings
are Dafny `int`s. The lists are immutable `seq` values, so none of the
operations can modify its input list: that property holds by construction
rather than by a stated postcondition.

`find_min` / `find_max` return the list element itself (weather.py:89, 94,
109, 114), not a float copy of it; `FindMin` / `FindMax` do the same.

## Model

| member | source | states |
|---|---|---|
| Weather.FormatTemperature | weather.py:4-16 | the result is the temperature text followed by the two characters degree sign and `C`; it starts with the text and is two characters longer |
| Weather.FormatTemperatureInjective | weather.py:7-16 | two different temperature texts never format to the same string |
| Weather.FormatTemperatureExample | weather.py:7-16 | formatting `25` gives `25°C` |
| Weather.Mean | weather.py:44-58 | the mean of an empty list is 0.0; for a non-empty list, mean times length equals the sum of the list |
| Weather.Sum | weather.py:55 | the built-in `sum`, a left fold of the list starting from 0, equals the sum taken from the front (first element plus the sum of the rest), so the order of accumulation does not change the total |
| Weather.SumFromFrontSnoc | weather.py:55 | adding an element at the end of a list adds it to the front-first sum |
| Weather.SumBounds | weather.py:55 | if every reading lies in `[lo, hi]`, the sum of `n` readings lies in `[n*lo, n*hi]` |
| Weather.MeanBetweenExtrema | weather.py:44-58 | the mean of a non-empty list lies between its minimum and its maximum |
| Weather.MeanOfConstant | weather.py:44-58 | a list whose readings all equal `c` has mean `c` |
| Weather.SeqMin | weather.py:89 | the built-in `min` of a non-empty list is an element of the list and at most every element |
| Weather.SeqMax | weather.py:109 | the built-in `max` of a non-empty list is an element of the list and at least every element |
| Weather.FindMin | weather.py:78-94 | the result is absent exactly when the list is empty; otherwise the value occurs in the list, is at most every element, sits at the returned index, and no later index holds it |
| Weather.FindMax | weather.py:97-114 | the result is absent exactly when the list is empty; otherwise the value occurs in the list, is at least every element, sits at the returned index, and no later index holds it |
| Weather.LastIndexUnique | weather.py:90-94 | a value has at most one last index, so the contracts of `FindMin` and `FindMax` fix the returned index as well as the value |

## Left out

- `load_data_from_csv` (weather.py:61-75): file I/O through `open` and the `csv` reader. As written it also returns right after appending the first row.
- `convert_date` (weather.py:19-30): it relies on the library's date parsing and locale-dependent weekday and month names.
- `convert_f_to_c` (weather.py:32-41): floating-point arithmetic and rounding. It also returns a sentence rather than a number.
- `generate_summary` and `generate_daily_summary` (weather.py:117-136): their bodies are empty, so they have no behaviour.
- Floating-point readings: the lists hold integers, and the mean is an exact real rather than an IEEE float.
- Weather.FormatTemperature: takes the already rendered text of the temperature; the conversion of a number to text done by the f-string is not modelled.
