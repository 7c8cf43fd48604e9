/**
 * The two fixed stopword sets. The positive-ratio run uses the long list of
 * conversion_positive.py (particles, slang, jamo laughter, digits and a few
 * multi-word phrases); the negative-ratio run uses the short list of
 * conversion_negative.py. Entries listed twice in the source appear once here.
 */
module Stopwords {

  const PositiveStopwords: set<string> := {
    "의", "가", "이", "은", "들", "는", "좀", "잘", "걍", "과", "도", "를", "으로", "자", "에", "와", "한",
    "하다", "에서", "에서부터", "까지", "에게", "하고", "으로서", "동안", "및", "하고는", "ㅋㅋ", "ㅎㅎ", "ㅇㅇ", "ㄴㄴ",
    "ㄱㄱ", "ㅅㅂ", "ㅂㅂ", "ㄴㄴㄴ", "ㅃㅃ", "ㅋㄱ", "ㅇㅅㅇ", "ㄷㄷ", "ㅅㄱ", "ㅠㅠ", "ㅜㅜ", "ㅋㅋㅋㅋ", "ㅎㅎㅎ",
    "아님", "나만", "잘못", "진짜", "ㅈㄴ", "왜", "뭐", "그래서", "아니", "갑자기", "그럼", "오지네", "ㅂㄷㅂㄷ", "ㄱㅅ",
    "ㄴㄴㄴㄴ", "ㅋㅋㅋ", "그게뭐", "고소", "ㅅㅂㅅㅂ", "ㄷㄷㄷ", "ㅍㅎㅎ", "킹받네", "전혀", "어떻게", "진짜로", "그러니까",
    "그런가", "요즘", "그런데", "근데", "ㅉㅉ", "ㅠㅠㅠ", "ㅎㅇ", "ㅋㅇㅋ", "이게뭐야", "미쳤다", "ㅋㅋㅋㅋㅋ", "뭐야",
    "뭐라고", "이게뭐지", "나중에", "다들", "ㅋㅋㅋㅋㅋㅋ", "다시", "ㄱㄱㄱ", "ㅇㅋ", "ㅇㅇㅇ", "야", "개쩔어", "ㅋㄱㄱ",
    "흠", "그럴수있지", "답답하다", "열받네", "끄덕", "아냐", "부럽다", "장난하냐", "개꿀", "헐", "ㄷㄷㄷㄷ", "한번", "헐ㅋ",
    "ㅏㅏㅏ", "이런", "ㅋㅑ", "느려", "재밌다", "열받아", "대박", "엄청", "죽는다", "대체", "엥", "ㅈㅣㄴ짜", "결국",
    "그럴리", "내 말이", "그래도", "가자", "그렇지", "이따", "아니야", "ㅇㅇㅇㅇㅇ", "흠흠", "진짜네", "별로", "아웃",
    "맞긴한데", "깜놀", "헐ㅋㅋㅋ", "미치겠다", "와우", "마무리", "맞네", "뭐가", "하기", "유일하게", "됐다", "뭐함",
    "도대체", "나갔다", "죽겠다", "나쁜놈", "확실히", "다시 봐도", "왠지", "쓰레기", "실화냐", "개빡침", "잡았다", "ㅇㅇㄱㄱ",
    "뭐야ㅋㅋ", "가만히", "미친놈", "그만하자", "그게 다야", "이게 뭐지", "그렇다면", "진심", "말되나", "이거 실화냐", "나가자",
    "괜찮은데", "불안", "하지마", "맞는 말", "아니겠지", "이게 바로", "또 뭐야", "맞아", "신기하다", "뭐하는거지", "대박이다",
    "찐따", "동의해", "맞다", "계속하자", "조용히 해", "그래요", "그걸로 끝", "그냥 그렇다고", "아", "지금", "다", "이거",
    "그냥", "더", "또", "내", "나", "내일", "그", "거", "안", "아직", "아직도", "ㄷ", "어", "ㅅㅅ", "ㅅㅅㅅ",
    "그리", "저", "나도", "어케", "하나", "일단", "있다", "하", "어어", "하따", "없는", "어지", "등", "오늘", "이제",
    "ㄹㅇ", "무슨", "이새끼", "ㅋㅋㅋㅋㅋㅋㅋ", "ㅅㅅㅅㅅ", "아가리", "기상", "젤", "0", "1", "2", "3", "4", "5",
    "6", "7", "8", "9", "10", "11", "20", "30", "50", "100", "어제", "내가", "난", "너무", "오늘은",
    "오늘의", "오늘도", "사람", "있냐", "아까", "보고", "많이", "때", "없네", "할", "관련", "얘", "있으면", "때문에",
    "이미", "같음", "있나", "시발", "씨발", "존나", "개같이", "새끼", "ㅆㅂ", "씹", "ㅋ", "딱", "함", "솔직히",
    "님들", "글", "드디어"
  }

  const NegativeStopwords: set<string> := {
    "의", "가", "이", "은", "들", "는", "좀", "잘", "걍", "과", "도", "를", "으로", "자", "에", "와", "한",
    "하다", "에서", "에서부터", "까지", "에게", "하고", "으로서", "동안", "및", "하고는", "ㅋㅋ", "ㅎㅎ", "ㅇㅇ", "ㄴㄴ",
    "ㄱㄱ", "ㅅㅂ", "ㅂㅂ", "ㄴㄴㄴ"
  }
}
