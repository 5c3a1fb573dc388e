# Bulk customer deletion: a verified model

Two scripts delete customer.io customers that are listed in a CSV export:

- `delete_customers.py` works through the targets one at a time. It pauses after every `batch_size` of them.
- `delete_customers_fast.py` submits every target to a thread pool. It then tallies the results in the order the workers finish, prints a progress line every `progress_interval` results, and ends with a capped sample of the failures.

This project models the deterministic core of both scripts in Dafny and proves what the scripts promise about it. The modules are:

- `Text` (`text.dfy`): Python's `str.strip()`, with the whitespace set Python uses.
- `Customers` (`customers.dfy`): `load_customers_from_csv`, which is the same in both scripts. It turns `(id, email)` rows into deletion targets. It is a loop (`LoadCustomers`) proved equal to a pure filter/map (`Targets`).
- `Deletion` (`deletion.dfy`): the outcome of one remote delete (`Ok` or `Err(message)`) and the failure record both scripts keep. It also holds the sequential tally, as functions: the successful count and the failure list in input order.
- `SequentialDeletion` (`sequential.dfy`): the loop of `delete_customers`. It tallies the outcomes and records where it pauses.
- `FastDeletion` (`fast.dfy`) covers three things:
  - `delete_single_customer`;
  - the aggregation loop of `delete_customers_fast`, which consumes results in completion order, with its progress schedule;
  - the failure sample of the final summary.

The remote delete call is replaced by an oracle. `outcomes[i]` is what deleting `customers[i]` returns or raises. The order in which the workers finish is a parameter, `arrived`, which may be any permutation of the per-target results. A pause (`time.sleep(delay)`) is modelled by recording its position.

## Model

| member | source | states |
|---|---|---|
| Text.StripLeadingDrops | delete_customers_fast.py:38-39 | stripping the front removes exactly a maximal all-whitespace prefix |
| Text.StripTrailingDrops | delete_customers_fast.py:38-39 | stripping the back removes exactly a maximal all-whitespace suffix |
| Text.StripTrims | delete_customers.py:39-40 | `strip()` gives a contiguous piece of the input with no whitespace at either end, and the piece is empty iff the input is all whitespace |
| Text.StripCharacterised | delete_customers.py:39-40 | any whitespace-free-ended piece left after removing only whitespace is exactly `strip()` of the input |
| Text.StripIdempotent | delete_customers_fast.py:38-39 | stripping twice is stripping once |
| Customers.TargetOf | delete_customers_fast.py:38-52 | a row gives no target iff its trimmed `id` and trimmed `email` are both empty; otherwise the target keeps the trimmed email and the trimmed id as `original_id`, and its identifier is the trimmed id when non-empty, else the email, so it is never empty |
| Customers.Targets | delete_customers_fast.py:36-52 | there are no more targets than rows, and every identifier is non-empty |
| Customers.KeptRowsExact | delete_customers.py:42-44 | the kept row positions are increasing, and a row is kept iff it is not blank |
| Customers.TargetsFollowRows | delete_customers.py:37-53 | there is one target per kept row, in row order: the j-th target is the one built from the j-th kept row |
| Customers.LoadCustomers | delete_customers_fast.py:31-61 | the appending loop builds exactly `Targets(rows)` |
| Customers.ThreeRowExample | delete_customers.py:46-53 | an id row keeps its id; an email-only row falls back to the email with an empty `original_id`; a blank row is dropped |
| Deletion.CountOk | delete_customers.py:100-103 | the successful count is at most the number of outcomes, and equals it iff every delete succeeded |
| Deletion.Failures | delete_customers.py:106-112 | the failure list has one record per failed outcome |
| Deletion.TallyStep | delete_customers.py:96-112 | handling one more target adds one to the successful count on success, and appends exactly that target's record on failure |
| Deletion.FailedPositionsExact | delete_customers.py:106-107 | the failed positions are increasing, and a position is listed iff its delete raised |
| Deletion.FailuresFollowTargets | delete_customers.py:106-112 | the j-th failure record is the `customer_id`, `email` and error text of the j-th failed target, in input order |
| SequentialDeletion.PausesExact | delete_customers.py:117-119 | a pause follows target i iff `i % batch_size == 0 and i < total`; the pauses are increasing and none follows the last target |
| SequentialDeletion.HandleStep | delete_customers.py:96-119 | handling target i grows exactly one counter, records its failure, and adds a pause exactly at a batch boundary |
| SequentialDeletion.DeleteCustomers | delete_customers.py:86-133 | after the loop, `deleted + failed == total`; `deleted` is the number of successes; the failure list, which the summary prints in full, holds every failure in input order; the pauses are exactly the batch boundaries |
| FastDeletion.DeleteSingle | delete_customers_fast.py:77-96 | the result is successful iff the delete returned; its error is `None` iff it succeeded, and otherwise it is the raised message; the identifier and email are copied from the target |
| FastDeletion.Results | delete_customers_fast.py:133-138 | there is exactly one result per target, and the i-th is `delete_single_customer` of the i-th target |
| FastDeletion.FailedRecords | delete_customers_fast.py:145-153 | failures plus successes make up every consumed result |
| FastDeletion.TallyArrival | delete_customers_fast.py:141-153 | consuming one result grows `deleted_count` on success, and otherwise grows `failed_count` and appends that result's record |
| FastDeletion.ArrivalStep | delete_customers_fast.py:141-153 | the tallies of `k + 1` results extend those of `k` results by the k-th result alone |
| FastDeletion.FailedRecordsPermuted | delete_customers_fast.py:145-153 | results arriving in any permutation give the same failure records, up to order |
| FastDeletion.ArrivalOrderIrrelevant | delete_customers_fast.py:141-153 | results arriving in any permutation give the same success count and failure records up to order |
| FastDeletion.ResultsTally | delete_customers_fast.py:84-96 | tallied in submission order, the results give the successful outcome count and exactly the sequential script's failure list |
| FastDeletion.CompletionOrderIrrelevant | delete_customers_fast.py:133-153 | whatever the completion order, the count equals the successful outcomes and the failures are the sequential script's, up to order |
| FastDeletion.ProgressTicks | delete_customers_fast.py:156 | every progress line falls on a processed count between 1 and the number consumed |
| FastDeletion.ProgressTicksExact | delete_customers_fast.py:156 | progress lines are in increasing order; one fires at count p iff `p % progress_interval == 0` or `p == total`; the last line is at the total |
| FastDeletion.Snapshot | delete_customers_fast.py:158-175 | a progress line after p results shows `deleted + failed == p`; its recent rate is taken over `progress_interval`, as the program does, while the results since the previous line number between 1 and p |
| FastDeletion.LinePrinted | delete_customers_fast.py:156-175 | consuming a result at a tick appends that result's progress line, and that line becomes the latest |
| FastDeletion.NoLinePrinted | delete_customers_fast.py:156 | consuming a result between ticks prints nothing |
| FastDeletion.LastTickBeforeTotal | delete_customers_fast.py:156 | before the last result, the latest line at or below m is at the largest multiple of the interval not above m |
| FastDeletion.RecentCounts | delete_customers_fast.py:156-175 | a line at a multiple of the interval covers exactly `progress_interval` results since the previous line; the final line at a non-multiple covers only `total % progress_interval` |
| FastDeletion.FailureSample | delete_customers_fast.py:192-199 | the sample shows the first `min(10, len(failed))` failures; it is empty iff nothing failed; it reports `len - 10` more only when there are more than 10 |
| FastDeletion.DeleteCustomersFast | delete_customers_fast.py:117-199 | for any completion order: `processed == total`; `deleted` is the number of successes; `deleted + failed == processed` and `len(failed_customers) == failed`; the failures are the sequential script's, up to order; one progress line per tick with the counters at that tick; the summary shows the capped sample |
| FastDeletion.ShortFinalInterval | delete_customers_fast.py:162-163 | with 4 results and an interval of 3, lines print at 3 and 4; the second line's rate is taken over 3 results, but only 1 arrived since the first line |
| FastDeletion.NotFoundExample | delete_customers_fast.py:185-199 | for three targets where the second gets "not_found", two are deleted and the sample lists only the second target |

## Left out

- Reading the CSV file and the `FileNotFoundError` and generic-exception exits are left out. Rows are an input sequence of `(id, email)` pairs. So is the `None` a short row gives under `csv.DictReader`, which makes `.strip()` raise and the script exit; it is part of that I/O.
- The environment-variable credential check and the `CustomerIO` client are left out. The client is replaced by the `outcomes` oracle.
- Thread pool scheduling, the worker count and concurrency itself are left out. Only "results arrive in some permutation" is kept.
- `time.sleep`, the random jitter in `delete_single_customer` and wall-clock time are left out. A sequential pause is recorded by position.
- The floating-point average rate, recent rate, percentage, ETA and their formatting are left out. Of the recent rate, only its counts are modelled: `Progress.rateOver` is the count the program divides by the interval time, which is always `progress_interval`. `Progress.recent` is the number of results since the previous line. The two differ on a short final line (see Findings).
- Console output is left out. This covers the start banners, the per-target lines of the sequential script, the summary lines and both `main` functions with their confirmation prompts and hard-coded file names.
- A zero `batch_size` or `progress_interval` with at least one target raises `ZeroDivisionError` in Python. That case is excluded by a precondition. A negative value behaves as in Python, because `x % d == 0` agrees for every non-zero `d`.
- Repeated rows are kept: the loader drops only blank rows (delete_customers_fast.py:42-43), and `Targets` does the same.
- SequentialDeletion.DeleteCustomers: has no `delay` parameter. It records where each pause happens, not how long the pause lasts.

## Findings

| source | as written | input that shows it | evidently intended | confidence | as-written member | corrected member |
|---|---|---|---|---|---|---|
| delete_customers_fast.py:162-163 | the recent rate divides `progress_interval` by the time since the previous line, even on the final line | 4 targets with `progress_interval` 3: the final line covers 1 result but is rated as if it covered 3 | divide the number of results since the previous line, which is `total % progress_interval` for a short final interval | not executed; high | FastDeletion.ShortFinalInterval | FastDeletion.RecentCounts |
