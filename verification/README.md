# Overload protection and load balancing of go-zero, verified

This project models the overload-protection and load-balancing code annotated in this repository and
proves what that code keeps over whole runs. Objects that the source updates in place are classes, and
each method is proved against a function of the old state; goroutines that race are step relations, and
their properties are proved for every schedule. `dafny verify dfyconfig.toml` checks everything.

What the modules say, in the system's own terms:

- **Rolling window** (`WindowLog`, `WindowSpec`, `Collection`). The ring of buckets, with its cursor,
  lazy sliding and capped spans, is a filter over the log of additions: a reduction sees exactly the
  additions of the last `size` slots, oldest first. `updateOffset` reads the clock twice; `AddExact`
  gives the exact condition under which that is harmless, `StraddlingReadsMisdate` inputs where it is not.
- **Breaker** (`Breaker`). The history is a count over the logged marks of the window; the drop ratio has
  its range, sign and monotonicity, also over the log; a full window without marks admits every call. Each
  call that was let in and has ended leaves exactly one mark, except after `panic(nil)` or `runtime.Goexit`,
  where the deferred `recover` returns nil (`go.mod` asks for Go 1.17): a one exactly for each acceptable
  return, a zero for any other and for a panic. A request that ends by `panic(nil)` moreover seems to its
  caller to have succeeded.
- **Shedder** (`Shedding`, `ShedderRuns`, `FlyingProtocol`). The capacity comes from the log of completed
  intervals, passes per second times response time; a request is dropped exactly when that is exceeded while
  hot, and the counter and its spin-locked average lose nothing in any schedule.
- **Token limiter** (`TokenLimit`, `TokenExpiry`, `Failover`). A request is granted exactly when the rate
  allows it counted from every earlier request. Counted by the callers' dates the bound holds of all amounts
  exactly when no date goes back, because the script stores a date that does. Denied requests are invisible.
  Expired keys are, exactly when the time to live is at least a second and outlasts the time to fill the
  bucket by as much as the dates lag behind Redis; without a lag that is `2*burst >= rate`, and otherwise the
  time to live rounds to zero and every script run fails. The rescue mode always has exactly one goroutine
  that will end it, and does not end before a ping is answered.
- **Period limiter** (`PeriodLimit`, `PeriodCalendar`). A window permits the first `max(quota, 1)` calls.
  With `align` the caller computes the length of a window before the script runs, to the second. So aligned
  windows can be short and can overrun: in less than a period up to three of them are met, and
  `3*quota - 1` calls permitted where twice the quota would be expected, for every period of two seconds or
  more and every quota of two or more (`PeriodBoundExactly`); with scripts that run late it can be more still, up
  to one window for each second (`LatePeriodBoundExactly`). A calendar period can permit `2*quota - 1`; when
  scripts run in the period in which their callers read the clock it keeps to the quota in every run exactly
  when the quota is at most one, and when they may run later only if the period is also a single second.
- **P2C picker** (`P2c`, `P2cRuns`). Over every run the node with less load is chosen unless a node has waited
  longer than `forcePick`, and the lag in a load follows the times that requests took. Forced picks bound the
  wait of either of two nodes by twice `forcePick`, and that bound is reached; failures bring a node's health
  down one by one, while a success can count for nothing.
- **HTTP timeout, RPC timeout, stream tracing** (`HttpTimeout`, `RpcTimeout`, `StreamTracing`). One outcome,
  never a mixture; the span ends once, and its status is what a call on the stream met or how its context
  ended. A server goroutine is stuck exactly when its handler has ended by `panic(nil)` or `runtime.Goexit`
  and the context is still alive: then it waits for the deadline, and a handler that does nothing else leads
  there.
- **Kubernetes endpoints** (`Kube`). The published list is the tracked set after every event, and a list is
  published exactly when the set changes.
- **Weighted round robin** (`RoundRobin`, `WeightedPass`, `NextEnds`, `WeightedRoundRobin`,
  `WeightedFairness`, `WeightedStory`). Rounds pick by weight, and from any start, also the listing's own, whose
  `init` leaves the effective weights at zero, uses stay within fixed bounds of the share. `Next` passes over
  dead nodes by calling itself. For positive weights that no effective weight exceeds it returns from all
  current weights exactly when some node is alive and either at most one is dead or no dead one is below its
  weight (`EndsExactly`). Otherwise it may recurse for ever: two dead nodes of which one is falling suffice, and
  the listing's own start leads there (`WeightedStory`). And `useCount` rises once for each dead node passed over.
- **Consistent-hash ring** (`HashCode`, `RingSpec`, `HashRing`). Adding moves keys only onto the new node,
  removing moves only the removed node's keys as long as positions do not collide, and the exact condition
  when they do. `getHashCode` shifts 32 hexadecimal digits through 64 bits and keeps the low 32, so only the
  last four digits count and there are no more than 65536 positions.
- **Direct targets** (`Shuffle`, `DirectResolver`). Endpoints come back from a target exactly when none is
  empty or holds a comma; any order can come out of the shuffle, of which at most 32 are used.

Modelling conventions: floats are reals, durations and counters unbounded integers, clock readings inputs;
a clock that is read twice is two inputs. `math.Exp` in the picker is any function into (0, 1] that is 1
only for no time. Whether the CPU is overloaded, what Redis, a ping or a callback answers and all random
draws are inputs, and everything is proved for all of them. `GoArith` holds Go's truncating arithmetic.

## Model

| member | source | states |
|---|---|---|
| Collection.Window.constructor | code/core/collection/rollingwindow.go:149-158 | a window of `size` empty buckets |
| Collection.Window.Position | code/core/collection/rollingwindow.go:164-177 | an index that has gone at most once past the end wraps to its place in the ring |
| Collection.Window.Add | code/core/collection/rollingwindow.go:163-165 | one bucket gets the value and one more count, the others stay |
| Collection.Window.Reduce | code/core/collection/rollingwindow.go:169-173 | folds the buckets from `start` on, round the ring, in order |
| Collection.Window.ResetBucket | code/core/collection/rollingwindow.go:176-178 | empties one bucket, wrapped round the ring, and no other |
| Collection.RollingWindow.constructor | code/core/collection/rollingwindow.go:35-49 | a new window is all empty and dated now |
| Collection.RollingWindow.CurrentSpan | code/core/collection/rollingwindow.go:86-93 | the intervals passed, cut to the window size |
| Collection.RollingWindow.Slide | code/core/collection/rollingwindow.go:105-116 | clearing in place and moving the cursor is forgetting the oldest cells and opening empty ones |
| Collection.RollingWindow.UpdateOffset | code/core/collection/rollingwindow.go:97-121 | the whole new state, with the second clock reading dating the opened bucket |
| Collection.RollingWindow.Add | code/core/collection/rollingwindow.go:53-59 | slides, then adds to the newest cell |
| Collection.RollingWindow.Live | code/core/collection/rollingwindow.go:67-79 | the modular start and count pick out the unexpired cells, oldest first |
| Collection.RollingWindow.Reduce | code/core/collection/rollingwindow.go:63-82 | folds exactly the unexpired cells, the current one left out when asked |
| Collection.ClearedAreOldest | code/core/collection/rollingwindow.go:112-114 | the buckets cleared after the cursor are the oldest ones |
| WindowSpec.AddExact | code/core/collection/rollingwindow.go:97-121 | an addition keeps the ring equal to the log if and only if no bucket expired, both clock readings share a slot, or all that is kept is empty |
| WindowSpec.StraddlingReadsMisdate | code/core/collection/rollingwindow.go:117-120 | for every interval, two readings on either side of a slot boundary date an old addition one slot late |
| WindowSpec.VisitedExact | code/core/collection/rollingwindow.go:63-93 | a reduction at a later time sees the last `size` slots, and all but the current one when that is ignored |
| WindowSpec.RunRefinesLog | code/core/collection/rollingwindow.go:53-121 | every steady run of additions, idle gaps included, leaves a ring that holds exactly its log |
| WindowSpec.WindowIsLogFilter | code/core/collection/rollingwindow.go:53-121 | after any steady run a reduction visits exactly the slots of the window of the log |
| WindowLog.ViewTotals | code/core/collection/rollingwindow.go:125-134 | counts and sums over the buckets are those of the additions that fall into the window |
| Breaker.GoogleBreaker.constructor | code/core/breaker/googlebreaker.go:55-63 | forty buckets of 250 ms, all empty |
| Breaker.GoogleBreaker.History | code/core/breaker/googlebreaker.go:146-153 | tallies the unexpired buckets, with 0 <= accepts <= total |
| Breaker.GoogleBreaker.Accept | code/core/breaker/googlebreaker.go:66-83 | for a window of marks and a draw that is not negative, rejects exactly when draw * (total + 1) < total - 5 - 1.5 * accepts |
| Breaker.GoogleBreaker.MarkSuccess | code/core/breaker/googlebreaker.go:134-136 | one addition of one |
| Breaker.GoogleBreaker.MarkFailure | code/core/breaker/googlebreaker.go:139-141 | one addition of zero |
| Breaker.GoogleBreaker.DoReq | code/core/breaker/googlebreaker.go:104-131 | a rejected call leaves the window alone and gets its error or what the fallback makes of it; one let in adds one for an acceptable return, zero for any other or a panic, nothing for panic(nil) or Goexit, and ends as its request did |
| Breaker.HistoryIsLogCount | code/core/breaker/googlebreaker.go:146-153 | the history is the number of accepted calls and of all calls in the window of the log |
| Breaker.DropRatioRange | code/core/breaker/googlebreaker.go:70-75 | the ratio is in [0, 1), and positive if and only if 2*(total-5) > 3*accepts |
| Breaker.RejectsExactly | code/core/breaker/googlebreaker.go:70-79 | a draw rejects if and only if draw * (total + 1) < total - 5 - 1.5 * accepts |
| Breaker.FailureNeverLowers | code/core/breaker/googlebreaker.go:70-75 | one more failure never lowers the ratio |
| Breaker.SuccessNeverRaises | code/core/breaker/googlebreaker.go:70-75 | one more success never raises it |
| Breaker.MarksMoveRatio | code/core/breaker/googlebreaker.go:134-153 | a failure logged in the window never lowers the ratio read off the log, a success never raises it |
| Breaker.OneMarkPerFinishedCall | code/core/breaker/googlebreaker.go:104-131 | in every interleaving of calls: marks + calls in flight + vanished calls = admitted calls, and the window is the run of the marks |
| Breaker.MarksSayHowCallsEnded | code/core/breaker/googlebreaker.go:104-131 | in every interleaving of calls: as many ones as acceptable returns of admitted calls, as many zeros as other returns and panics, and the calls that vanished are the panic(nil) and Goexit ends |
| Breaker.BreakerDecidesOnLog | code/core/breaker/googlebreaker.go:66-83 | after any run the next call is judged by the marks of the window alone, and let in once it holds none |
| Breaker.QuietBreakerAdmits | code/core/breaker/googlebreaker.go:66-83 | after a full window without a mark the history is empty and every call is let in |
| Shedding.AdaptiveShedder.constructor | code/core/load/adaptiveshedder.go:120-159 | both windows new, nothing in flight, no drop remembered, and the whole intervals in a second |
| Shedding.AdaptiveShedder.MaxPass | code/core/load/adaptiveshedder.go:233-243 | the largest bucket sum, at least one |
| Shedding.AdaptiveShedder.MinRt | code/core/load/adaptiveshedder.go:248-264 | the smallest rounded bucket mean, at most a second |
| Shedding.AdaptiveShedder.MaxFlight | code/core/load/adaptiveshedder.go:219-227 | passes times intervals per second times milliseconds, cut to whole thousands, by inequalities; one when below two thousand |
| Shedding.AdaptiveShedder.HighThru | code/core/load/adaptiveshedder.go:200-215 | exactly when the counter and the average, cut to a whole number, are both more than one and than the thousandth of that product |
| Shedding.AdaptiveShedder.StillHot | code/core/load/adaptiveshedder.go:291-310 | whether a drop is remembered from less than the cool-off time ago, and what is forgotten by looking |
| Shedding.AdaptiveShedder.ShouldDrop | code/core/load/adaptiveshedder.go:267-288 | drops if and only if overloaded or hot, and above capacity |
| Shedding.AdaptiveShedder.Allow | code/core/load/adaptiveshedder.go:163-181 | the decision by that product, the memory of the drop and the counter; a request that finds at most one in flight, or an average below two, is never dropped |
| Shedding.AdaptiveShedder.AddFlying | code/core/load/adaptiveshedder.go:183-197 | moves the counter; ten times the new average is nine times the old one and the counter, when a request ends, and it stays otherwise |
| Shedding.AdaptiveShedder.Fail | code/core/load/adaptiveshedder.go:346-349 | takes one out of flight and records nothing |
| Shedding.AdaptiveShedder.Pass | code/core/load/adaptiveshedder.go:351-358 | takes one out of flight and adds the latency and the pass to their windows |
| Shedding.CapacityIs | code/core/load/adaptiveshedder.go:219-227 | the capacity is one below a product of two thousand, and else 1000 * capacity <= passes * intervals * milliseconds < 1000 * (capacity + 1) |
| Shedding.ExceedsExactly | code/core/load/adaptiveshedder.go:214 | above capacity if and only if counter and average are both at least two and above the thousandth of the product, so a low average spares a burst |
| Shedding.LatencyOf | code/core/load/adaptiveshedder.go:351-357 | the least number of milliseconds that is no less than the time taken |
| Shedding.MaxPassOnLog | code/core/load/adaptiveshedder.go:233-243 | maxPass is the largest number of passes logged in any completed slot, or one |
| Shedding.MinRtOnLog | code/core/load/adaptiveshedder.go:248-264 | minRt is the smallest rounded mean latency of any completed slot with requests, or a second |
| Shedding.HotMeansRecentDrop | code/core/load/adaptiveshedder.go:291-310 | over every run, still hot if and only if some request was dropped within the cool-off time |
| Shedding.DropExactly | code/core/load/adaptiveshedder.go:267-288 | over every run, a request is dropped if and only if above capacity, here an input, while overloaded or shortly after a drop |
| ShedderRuns.RunIsAccounted | code/core/load/adaptiveshedder.go:339-358 | over every run, in flight = admitted - finished >= 0, the windows hold one addition for each request that passed, and the average is nine parts old and one part new at each end |
| ShedderRuns.ShedderDecidesOnLog | code/core/load/adaptiveshedder.go:163-310 | after any timely run the next request is dropped if and only if overloaded or shortly after a drop, and requests in flight and average exceed logged passes times intervals per second times logged response time |
| FlyingProtocol.FlyingConserved | code/core/load/adaptiveshedder.go:183-208 | in every schedule: in flight = admitted - finished >= 0, at most one goroutine inside the lock, a taken lock has one inside, and the average is between zero and the peak |
| FlyingProtocol.AveragedOnce | code/core/load/adaptiveshedder.go:183-197 | no finished request is lost from the average or counted twice |
| FlyingProtocol.StepKeepsInv | code/core/syncx/spinlock.go:14-28 | every compare-and-swap, store or access inside the lock keeps mutual exclusion |
| TokenLimit.Store.SetEx | code/core/limit/tokenlimit.go:99-100 | stores one key with its deadline, and refuses without writing when the time to live is not positive |
| TokenLimit.Store.Eval | code/core/limit/tokenlimit.go:75-102 | the reply and both stored keys after a script run |
| TokenLimit.TokenLimiter.constructor | code/core/limit/tokenlimit.go:123-136 | starts with Redis alive and no monitor |
| TokenLimit.TokenLimiter.ReserveN | code/core/limit/tokenlimit.go:150-194 | script answer, rescue answer or switch to rescue, with what each changes |
| TokenLimit.TokenLimiter.StartMonitor | code/core/limit/tokenlimit.go:197-209 | starts a monitor and the rescue mode unless one is started already |
| TokenLimit.TokenLimiter.WaitForRedis | code/core/limit/tokenlimit.go:212-230 | ends with the first answered ping, and only then leaves rescue mode |
| TokenLimit.LevelIsLeastRoom | code/core/limit/tokenlimit.go:91-97 | the level a request finds is the least room left since any earlier request, and some request attains it |
| TokenLimit.GrantedExactlyWithinRate | code/core/limit/tokenlimit.go:91-102 | granted if and only if that stays within burst + rate * time counted from every earlier request |
| TokenLimit.TokensWithinRate | code/core/limit/tokenlimit.go:75-102 | between any two requests at most burst + rate * time tokens are given |
| TokenLimit.TokensInBucket | code/core/limit/tokenlimit.go:92-99 | the level is in [0, burst], and what is stored never below zero |
| TokenLimit.ElapsedIsDifference | code/core/limit/tokenlimit.go:91 | with dates in order the time counted is the difference of the dates |
| TokenLimit.FallingDatesBreak | code/core/limit/tokenlimit.go:91-100 | whenever two dates fall, some amounts break the bound in terms of the dates |
| TokenLimit.DatesBoundExactly | code/core/limit/tokenlimit.go:91-100 | for given dates, every choice of amounts keeps to burst + rate * date difference if and only if the dates do not go back |
| TokenLimit.DateGoingBackRefills | code/core/limit/tokenlimit.go:91-100 | a date that goes back is stored and the same seconds are counted again |
| TokenLimit.DeniedIsAlike | code/core/limit/tokenlimit.go:93-100 | a denied request leaves a bucket that no later request can tell from the old one |
| TokenLimit.DeniedIsInvisible | code/core/limit/tokenlimit.go:93-100 | taking a denied request out of a run in order changes no other answer |
| TokenExpiry.ExpiryKeepsAnswers | code/core/limit/tokenlimit.go:79-100 | from any stored bucket, with dates that lag so far behind Redis, expiring keys answer every run like keys that never expire |
| TokenExpiry.ExpiryInvisibleExactly | code/core/limit/tokenlimit.go:79-100 | expiry is invisible in every run with at most that lag if and only if the time to live is at least a second and outlasts the time to fill the bucket by the lag |
| TokenExpiry.ExpiryInvisibleWithoutLag | code/core/limit/tokenlimit.go:79-100 | without a lag, for each run, if and only if 2*burst >= rate |
| TokenExpiry.EveryRunFails | code/core/limit/tokenlimit.go:79-100 | with a time to live of zero SETEX refuses and the first script run already fails |
| TokenExpiry.ExpiryShows | code/core/limit/tokenlimit.go:79-100 | a run in which a date that lags further shows the expiry |
| TokenLimit.ServeAllIsRun | code/core/limit/tokenlimit.go:81-102 | the answers of the two descriptions of a run agree |
| Failover.StepKeepsInv | code/core/limit/tokenlimit.go:150-230 | every atomic step of callers and monitors keeps the invariant of lock, flags and owners |
| Failover.RescueIsAlwaysProbed | code/core/limit/tokenlimit.go:197-230 | in every schedule, rescue mode if and only if exactly one goroutine is on its way to end it; never two monitors |
| Failover.RescueCanEnd | code/core/limit/tokenlimit.go:212-230 | from any rescue state three steps with an answered ping lead out |
| Failover.SuccessKeepsRedis | code/core/limit/tokenlimit.go:150-194 | while every script run succeeds, in every schedule, no monitor starts and Redis decides |
| Failover.FailureStartsRescue | code/core/limit/tokenlimit.go:185-209 | with no monitor started, a failed script run leads to the rescue mode with a monitor that probes |
| Failover.RescueLasts | code/core/limit/tokenlimit.go:151-230 | while no ping is answered the rescue mode lasts, and no further caller asks Redis |
| PeriodLimit.Limiter.IncrBy | code/core/limit/periodlimit.go:42 | counts up a live key, or starts a new one |
| PeriodLimit.Limiter.Expire | code/core/limit/periodlimit.go:44 | gives the key a deadline and keeps its count |
| PeriodLimit.Limiter.Take | code/core/limit/periodlimit.go:116-141 | the code and the new key, the window being as long as its caller computed before the script ran; or nothing changed when it does not get through |
| PeriodLimit.CodeAt | code/core/limit/periodlimit.go:40-52 | in every run a code depends only on the call's place in its window |
| PeriodLimit.PermittedByPlace | code/core/limit/periodlimit.go:43-52 | permitted if and only if among the first max(quota, 1); HitQuota exactly on place `quota`, from two on |
| PeriodLimit.WindowPermitsShare | code/core/limit/periodlimit.go:40-52 | each window permits exactly min(calls, max(quota, 1)) |
| PeriodLimit.PeriodPermits | code/core/limit/periodlimit.go:116-156 | without alignment any stretch shorter than the period permits at most 2*max(quota, 1) - 1 |
| PeriodLimit.SecondsPermit | code/core/limit/periodlimit.go:40-52 | aligned or not and however late scripts run, a stretch shorter than n seconds permits at most (n + 1) * max(quota, 1), less one unless it begins with a window |
| PeriodCalendar.AlignedPermits | code/core/limit/periodlimit.go:116-156 | with alignment and scripts that run in their calendar period, a stretch shorter than the period permits at most 3*max(quota, 1) - 1 |
| PeriodCalendar.AlignedBoundReached | code/core/limit/periodlimit.go:116-156 | runs reach 3*quota - 1, for every period and quota of at least two |
| PeriodCalendar.PeriodBoundExactly | code/core/limit/periodlimit.go:116-156 | every such stretch of every such run permits at most 2*max(quota, 1) if and only if not aligned, or the period is one second, or the quota at most one |
| PeriodCalendar.LateBoundReached | code/core/limit/periodlimit.go:116-156 | when scripts may run late, runs reach (period + 1) * max(quota, 1) - 1 in less than a period, for every period of at least two seconds |
| PeriodCalendar.LatePeriodBoundExactly | code/core/limit/periodlimit.go:116-156 | then the bound of 2*max(quota, 1) holds of all runs if and only if not aligned, or the period is one second, or two and the quota at most one |
| PeriodCalendar.AlignedDeadline | code/core/limit/periodlimit.go:44-156 | an aligned window overruns the calendar period in which its length was computed by the milliseconds of that time and by the time until the script ran |
| PeriodCalendar.CalendarPermits | code/core/limit/periodlimit.go:147-156 | with scripts in their calendar period, that period permits less than twice the share, and the share if its first window was opened in it or ends with its own |
| PeriodCalendar.OverrunReached | code/core/limit/periodlimit.go:147-156 | there are runs in which one calendar period permits 2*quota - 1 calls |
| PeriodCalendar.CalendarQuotaExactly | code/core/limit/periodlimit.go:147-156 | when scripts run in their calendar period, all runs keep to the quota in every calendar period if and only if quota <= 1 |
| PeriodCalendar.LateReached | code/core/limit/periodlimit.go:116-156 | a script that runs in the next period opens a window of a second there, and a quota of one is given twice |
| PeriodCalendar.LateCalendarQuotaExactly | code/core/limit/periodlimit.go:116-156 | when scripts may run late, if and only if quota <= 1 and the period is one second |
| P2c.SubConn.Done | code/balancer/zrpc/p2c/p2c.go:124-166 | time taken and success are mixed into lag and health with the weight that has decayed since the last end, or replace them at a lag of zero; one less in flight |
| P2c.EwmaBetween | code/balancer/zrpc/p2c/p2c.go:148-157 | the stored average lies between the old value and the sample |
| P2c.Picker.Choose | code/balancer/zrpc/p2c/p2c.go:169-191 | less load, unless the busier node was last picked more than forcePick ago; only the chosen one is stamped |
| P2c.Picker.Pick | code/balancer/zrpc/p2c/p2c.go:80-120 | in each case whom loads and last picks call for, of two nodes or of the first healthy pair of up to three draws; the chosen one counts one more in flight and is stamped, nothing else changes |
| P2c.Picker.EveryPairHasOneDraw | code/balancer/zrpc/p2c/p2c.go:96-103 | every ordered pair of different nodes comes from exactly one draw |
| P2c.AfterDone | code/balancer/zrpc/p2c/p2c.go:124-157 | the lag is the time taken at first and between its old value and the time taken later; health moves with the outcome |
| P2cRuns.StaleIsChosen | code/balancer/zrpc/p2c/p2c.go:169-191 | a node not picked for longer than forcePick is picked next, whatever the loads |
| P2cRuns.ChosenByLoadAndWait | code/balancer/zrpc/p2c/p2c.go:169-191 | over every run, with the times of the last picks: less load wins while neither has waited longer than forcePick, the one that has if only one has, more load if both have; ties are settled too |
| P2cRuns.PickedAgain | code/balancer/zrpc/p2c/p2c.go:169-191 | with picks at most forcePick apart, either of two nodes is picked again within 2*forcePick |
| P2cRuns.WaitOfTwiceForcePick | code/balancer/zrpc/p2c/p2c.go:169-191 | that wait can be reached |
| P2cRuns.FailureLowers | code/balancer/zrpc/p2c/p2c.go:151-157 | a failure after some time lowers the health by at least one |
| P2cRuns.SuccessRaisesExactly | code/balancer/zrpc/p2c/p2c.go:151-157 | a success raises the health if and only if (1000 - health) * (1 - w) >= 1 |
| P2cRuns.FailuresInARow | code/balancer/zrpc/p2c/p2c.go:124-157 | a thousand failures in a row at later and later times bring the health to zero, five hundred make it unhealthy |
| P2cRuns.LoadIsPositive | code/balancer/zrpc/p2c/p2c.go:225-235 | without negative counts the load is at least one and the penalty is dead code |
| P2cRuns.NodeInvariants | code/balancer/zrpc/p2c/p2c.go:113-157 | in every interleaving of picks and single accesses: in flight = outstanding, load >= 1, health in [0, 1000] |
| P2cRuns.StepsAreDone | code/balancer/zrpc/p2c/p2c.go:126-157 | the six single accesses of one request that nothing comes between record exactly what the done callback does as a whole |
| HttpTimeout.TimeoutWriter.Write | code/rest/rest/handler/timeouthandler.go:135-147 | fails after the timeout, otherwise buffers after a first status of 200 |
| HttpTimeout.TimeoutWriter.LockedWriteHeader | code/rest/rest/handler/timeouthandler.go:149-177 | panics on a code that is no status, otherwise keeps the first |
| HttpTimeout.StepKeepsInv | code/rest/rest/handler/timeouthandler.go:55-106 | every step of handler, server and context keeps the invariant |
| HttpTimeout.OneOfThreeOutcomes | code/rest/rest/handler/timeouthandler.go:55-106 | in every interleaving the client sees nothing but a raised panic, the handler's complete response, or 499 or 503 with the reason alone |
| HttpTimeout.FrozenAfterTimeout | code/rest/rest/handler/timeouthandler.go:135-165 | whatever happens after a run has timed out, buffered bytes, status and response stay and every further write fails |
| HttpTimeout.WritesSucceedUntilTimeout | code/rest/rest/handler/timeouthandler.go:135-147 | in every run each write made has one answer, and all succeed until the timeout is marked |
| HttpTimeout.WritesSplitAtTimeout | code/rest/rest/handler/timeouthandler.go:99-147 | the answers of a run that times out are successes up to that moment and failures from then on |
| HttpTimeout.StuckExactly | code/rest/rest/handler/timeouthandler.go:66-106 | an unfinished run is stuck if and only if the handler has vanished and the context is alive; no handler blocks on its panic |
| HttpTimeout.VanishedHandlerIsWaitedFor | code/rest/rest/handler/timeouthandler.go:67-76 | a handler that does nothing but panic(nil) leads there |
| RpcTimeout.ResultIsNeverTorn | code/balancer/zrpc/internal/serverinterceptors/timeoutinterceptor.go:18-63 | in every interleaving the caller gets the handler's own pair, its panic, or the status of the ended context |
| RpcTimeout.StuckExactly | code/balancer/zrpc/internal/serverinterceptors/timeoutinterceptor.go:31-61 | an unfinished call is stuck if and only if its handler has vanished and the context is alive |
| RpcTimeout.VanishedHandlerIsWaitedFor | code/balancer/zrpc/internal/serverinterceptors/timeoutinterceptor.go:31-43 | a handler that does nothing but panic(nil) leads there |
| StreamTracing.SpanEndsOnce | code/balancer/zrpc/internal/clientinterceptors/tracinginterceptor.go:51-87 | at most one value on Finished, the first report or the context's error; the span ends once, with that status |
| StreamTracing.SpanTellsTheTruth | code/balancer/zrpc/internal/clientinterceptors/tracinginterceptor.go:70-204 | in every run, no error only if a receive met the end or brought the one answer of a stream that has one; an error only if a call failed with it or the context ended with it |
| StreamTracing.LiveStreamIsSilent | code/balancer/zrpc/internal/clientinterceptors/tracinginterceptor.go:108-151 | while no call fails or ends the stream and the context lives, nothing is reported and the span goes on |
| StreamTracing.EachEndIsReported | code/balancer/zrpc/internal/clientinterceptors/tracinginterceptor.go:108-158 | as many reports as calls that end the stream or fail |
| StreamTracing.FirstEndDecides | code/balancer/zrpc/internal/clientinterceptors/tracinginterceptor.go:70-204 | after a live stretch a call that ends the stream, or fails, can give the span just that status |
| StreamTracing.FailedOpenEndsSpan | code/balancer/zrpc/internal/clientinterceptors/tracinginterceptor.go:55-66 | a stream that cannot be opened has its span ended once with that error |
| StreamTracing.SenderIsReleased | code/balancer/zrpc/internal/clientinterceptors/tracinginterceptor.go:153-158 | a caller that reports is let go now or when the loop, which every move of its own brings nearer to its end, gets there |
| StreamTracing.SpanCanEnd | code/balancer/zrpc/internal/clientinterceptors/tracinginterceptor.go:180-204 | once the context has ended a span that has not has a move that leads on; each lowers what is left, nothing else raises it |
| StreamTracing.SpanEndsFrom | code/balancer/zrpc/internal/clientinterceptors/tracinginterceptor.go:70-84 | from any run whose context has ended at most six further moves end the span |
| Kube.Diff | code/balancer/zrpc/resolver/internal/kube/eventhandler.go:127-139 | true if and only if the sets differ |
| Kube.EventHandler.constructor | code/balancer/zrpc/resolver/internal/kube/eventhandler.go:19-24 | nothing tracked, nothing published |
| Kube.EventHandler.AddPoints | code/balancer/zrpc/resolver/internal/kube/eventhandler.go:39-44 | the inner loop adds the addresses of one subset and tells whether the set changed |
| Kube.EventHandler.OnAdd | code/balancer/zrpc/resolver/internal/kube/eventhandler.go:27-50 | the tracked set grows; published exactly if it changed, and then the list is the set |
| Kube.EventHandler.DeletePoints | code/balancer/zrpc/resolver/internal/kube/eventhandler.go:65-70 | the inner loop deletes the addresses of one subset and tells whether the set changed |
| Kube.EventHandler.OnDelete | code/balancer/zrpc/resolver/internal/kube/eventhandler.go:53-76 | the tracked set shrinks; published exactly if it changed |
| Kube.EventHandler.OnUpdate | code/balancer/zrpc/resolver/internal/kube/eventhandler.go:79-97 | replaces the set unless the version is the same; published exactly if it changed |
| Kube.EventHandler.Update | code/balancer/zrpc/resolver/internal/kube/eventhandler.go:100-115 | replaces the set; published exactly if it changed |
| Kube.EventHandler.Notify | code/balancer/zrpc/resolver/internal/kube/eventhandler.go:117-125 | publishes one list that names each tracked address once |
| Kube.LastEventDecides | code/balancer/zrpc/resolver/internal/kube/eventhandler.go:27-115 | over every run an address is tracked if and only if the last event with a say in it made it present |
| WeightedRoundRobin.Config.RaiseNodes | README.md:1346-1369 | the loop raises every node and finds the first with the largest current weight and the total to pay |
| WeightedRoundRobin.Config.Pass | README.md:1346-1375 | nothing picked exactly when there are no nodes, otherwise one pass |
| WeightedRoundRobin.Config.Next | README.md:1346-1379 | passes that pick dead nodes and then one that picks a live one, whose uses rise once for each pass; for all states from which the search always ends |
| WeightedRoundRobin.NextWhenAllAlive | README.md:1346-1379 | with all nodes alive a call is a single pass and one more use |
| NextEnds.EndsExactly | README.md:1373-1377 | for positive weights that no effective weight exceeds, the search ends from all current weights if and only if some node is alive and at most one is dead or no dead one is below its weight |
| NextEnds.CanEndEnds | README.md:1373-1377 | then it ends |
| NextEnds.DoomedNeverEnds | README.md:1356-1377 | a dead node far enough ahead, with another dead one falling, is picked for ever |
| NextEnds.SomeCurrentsDoom | README.md:1356-1377 | two dead nodes, one of them falling, are enough for current weights from which it never ends |
| WeightedPass.PassConservesSum | README.md:1349-1375 | every pass, with any effective weights and any dead nodes, conserves the sum of current weights |
| WeightedPass.SettledPassIsTurn | README.md:1349-1375 | at full effective weights a pass changes only current weights, dead nodes included |
| WeightedFairness.EffectivesClimb | README.md:1356-1364 | while all are alive effective weights climb by one a call to the weight and stay |
| WeightedFairness.UsesByWeight | README.md:1346-1379 | with all alive, each round of as many calls as the weights add up to uses each node exactly as often as its weight |
| WeightedFairness.UsesStayFair | README.md:1346-1379 | with all alive, from any current weights and while effective weights climb, uses stay within fixed bounds of the share for ever |
| WeightedFairness.UsesStayFairFromListing | README.md:1306-1379 | the same with its bounds from the start of the listing |
| WeightedStory.StoryBegins | README.md:1306-1379 | from the listing's start with weights 1, 1, 3, the passes after the third node dies at its first use |
| WeightedStory.StoryGoesOn | README.md:1346-1379 | the two calls after that, with the total down to zero |
| WeightedStory.StuckWithOneAlive | README.md:1356-1377 | when the second node dies then, the search never ends while the first is alive |
| WeightedStory.StuckBelowWeight | README.md:1356-1377 | a state in which every dead node is below its weight and the search never ends |
| RoundRobin.TurnConservesSum | README.md:1349-1375 | a turn conserves the sum of current weights |
| RoundRobin.WeightsFollowPicks | README.md:1349-1375 | current weight = start + turns * weight - total * picks |
| RoundRobin.PickedIsBelowWeight | README.md:1366-1375 | within a round the picked node has been picked less often than its weight |
| RoundRobin.NeverAboveWeight | README.md:1366-1375 | within a round no node is picked more often than its weight |
| RoundRobin.RoundPicksByWeight | README.md:1346-1379 | a round picks every node exactly its weight times and returns to the start |
| RoundRobin.RoundsPickByWeight | README.md:1346-1379 | the same for any number of rounds |
| RoundRobin.FairFromAnyStart | README.md:1346-1379 | from any start the picks stay within fixed bounds of the share, for ever |
| RoundRobin.FloorExists | README.md:1346-1379 | every start has such bounds |
| HashCode.GetHashCode | README.md:1518-1531 | the loop over 32 digits computes the number that the last four spell |
| HashCode.PositionExactly | README.md:1518-1531 | two keys share a position if and only if the last four digits of their digests agree |
| HashCode.PositionsAreFew | README.md:1518-1531 | any virtual nodes share at most 65536 positions |
| HashRing.NamesMeetExactly | README.md:1471 | two virtual nodes have one name if and only if index and address string are the same |
| HashRing.NameSpellsIndex | README.md:1471 | the name is address, port and the decimal digits that spell the index |
| HashRing.AtExactly | README.md:1470-1473 | a node's positions are those of its names with the indices below the number, and no others |
| HashRing.Sort | README.md:1434-1449 | strictly ascending with the same elements |
| HashRing.Search | README.md:1497 | the first index whose key is above the hash code |
| HashRing.VirtualNode.constructor | README.md:1459-1463 | an empty ring |
| HashRing.VirtualNode.SortHash | README.md:1509-1515 | the keys are the sorted, duplicate-free key set of the map |
| HashRing.VirtualNode.AddVirtualNode | README.md:1466-1476 | the node owns the position of each of its names, nothing else changes, and the keys stay in step |
| HashRing.VirtualNode.RemoveVirtualNode | README.md:1479-1488 | the positions of its names go, whoever held them, nothing else does, and the keys stay in step |
| HashRing.VirtualNode.GetVirtualNodel | README.md:1491-1506 | the one node the key is routed to, the owner of the first position after it, wrapping round; nothing exactly on an empty ring |
| RingSpec.RouteUnique | README.md:1497-1505 | a key is routed to at most one node |
| RingSpec.SuccessorMovesOn | README.md:1497-1505 | a key whose position goes is served by what comes after that position |
| RingSpec.RemovalIsMinimalExactly | README.md:1479-1506 | removal keeps all other nodes' routes if and only if each removed position of another node is followed by one of its own |
| RingSpec.RemovalMovesOnlyItsKeys | README.md:1479-1506 | without collisions removal moves only keys that were routed to the removed node |
| RingSpec.AdditionMovesOnlyOntoNode | README.md:1466-1506 | after an addition every key has its old route or is routed to the new node |
| RingSpec.RemovalUndoesAdditionExactly | README.md:1466-1488 | removing what was just added gives back the ring if and only if it took over no position |
| RingSpec.AdditionsCommuteExactly | README.md:1466-1476 | two nodes can be added in either order if and only if they share no position |
| RingSpec.RingIsMembership | README.md:1466-1488 | after any changes without collisions the ring holds exactly the members' positions, each its own |
| RingSpec.RoutesForgetHistory | README.md:1466-1506 | so the ring depends on who is a member and not on how that came about |
| DirectResolver.EndpointsComeBackExactly | code/balancer/zrpc/resolver/target.go:12-15 | join and split give back the endpoints if and only if none is empty or holds a comma |
| DirectResolver.TargetLength | code/balancer/zrpc/resolver/target.go:12-15 | a target is the scheme, the endpoints and one comma between any two |
| DirectResolver.Subset | code/balancer/zrpc/resolver/internal/subset.go:5-14 | the array is shuffled in place by the draws, and the subset is its first elements |
| DirectResolver.Build | code/balancer/zrpc/resolver/internal/directbuilder.go:11-31 | min(endpoints, 32) addresses, none more often than it is listed, and success as the connection answers |
| Shuffle.ShuffledIsAnyOrder | code/balancer/zrpc/resolver/internal/subset.go:6-8 | the orders a shuffle can come out in are exactly the permutations |

## Left out

- Collection.Window.Add: buckets are values in an array instead of shared records, because nothing else refers to them; sharing of a bucket is not captured.
- Collection.RollingWindow.Reduce: the callback that changes captured variables is a function folded over the buckets.
- WindowSpec.RunRefinesLog: for runs whose two clock readings in one call share a slot; `AddExact` says exactly what happens otherwise.
- Breaker.GoogleBreaker.DoReq: the request, the fallback and `acceptable` are given by what they return; the promise form of `Allow` reports through the same marks.
- Shedding.AdaptiveShedder.Allow: one goroutine at a time; what races is the subject of `FlyingProtocol`.
- Shedding.DropExactly: whether the capacity is exceeded is an input; `ShedderRuns.ShedderDecidesOnLog` ties it to the windows.
- FlyingProtocol.FlyingConserved: promises are reported at most once, which the source leaves to its callers.
- TokenLimit.TokensInBucket: a request for a negative number of tokens can store more than the burst; the bound says by how much.
- TokenExpiry.ExpiryInvisibleExactly: dates behind the Redis clock by a bounded number of seconds; dates ahead of it are not modelled.
- P2c.SubConn.Done: the minute log of the picker and its stamp; the done callback runs alone here; its interleavings are in `P2cRuns.NodeInvariants`, and `P2cRuns.StepsAreDone` ties the two.
- P2cRuns.PickedAgain: two nodes; with more, random pairs give no bound.
- HttpTimeout.OneOfThreeOutcomes: custom error handlers of `httpx`, `Push`, `Hijack` and `Flush`, and what the HTTP server does with the response.
- StreamTracing.SpanEndsOnce: the counters of sent and received messages and the span's attributes.
- WeightedRoundRobin.Config.Next: for nodes that are all alive, or of positive weights that no effective weight exceeds and from which the search ends whatever the current weights; in other states there are current weights from which it never ends. Nodes are values in an array instead of shared records, and the locks around them are not modelled.
- HashRing.VirtualNode.AddVirtualNode: MD5 is any function from strings to 32 hexadecimal digits; the read-write lock and the nodes' `Index` are not modelled.
- DirectResolver.EndpointsComeBackExactly: how gRPC takes a target apart; the endpoint is what follows the prefix.
- Floating-point rounding, and overflow of 64-bit counters.
- Random draws as distributions: no probability is claimed.
- CPU sampling, the Redis connection, the in-process rescue limiter, logging, metrics, option setters and configuration.
- Unary tracing, etcd and Kubernetes builders, informers, and the HTTP and gRPC wiring: only their visible effects appear.
